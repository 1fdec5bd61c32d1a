/**
 * The fixed format strings that the repository itself passes to `sprintf`, computed through the
 * meaning of formats: they produce exactly the texts that `CapText` defines.
 */
module FixedFormats {
  import opened Capability
  import opened Digits
  import opened Strings
  import opened Fields
  import opened CapText
  import opened Format

  // "%016lx %c [%016lx:%016lx) %s %-4s %ld of %lu", in three pieces
  const TAIL_FORMAT: string := "%s %-4s %ld of %lu"
  const BOUNDS_FORMAT: string := "%016lx:%016lx) " + TAIL_FORMAT
  const CAP_FORMAT: string := "%016lx %c [" + BOUNDS_FORMAT
  const HALVES_FORMAT: string := "%c:%016lx:%016lx"
  const SEAL_FORMAT: string := "%04x"

  /** An integer argument: only the low bits of the slot matter. */
  function IntSlot(v: int): Slot {
    Ptr(Cap(false, 0, U64 - 1, v % U64, {}, UNSEALED), 0, [])
  }

  /** A pointer to a local character array. */
  function LocalPtr(bytes: string): Slot {
    Ptr(Cap(true, 0x1000, |bytes|, 0x1000, RW_PERMS, UNSEALED), 0, bytes)
  }

  lemma LocalPtrReads(bytes: string)
    requires 0 < |bytes| < 0x1000
    ensures LocalPtr(bytes).Valid() && StringArg(LocalPtr(bytes)) == CString(bytes)
  {
    hide CString;
    assert LocalPtr(bytes).cap.Limit() == 0x1000 + |bytes|;
  }

  lemma IntSlotReads(v: int)
    ensures IntSlot(v).Valid()
    ensures 0 <= v < U64 ==> UnsignedArg(IntSlot(v), true) == v
    ensures -(U64 / 2) <= v < U64 / 2 ==> SignedArg(IntSlot(v), true) == v
  {
  }

  lemma {:induction false} RenderVerbatim(text: string, rest: string, args: seq<Slot>)
    requires '%' !in text && NUL !in text
    ensures Render(Parse(text + rest), args) == text + Render(Parse(rest), args)
  {
    hide Field, Render;
    if text == [] {
      assert text + rest == rest;
    } else {
      var s := text + rest;
      assert text[0] in text && s[1..] == text[1..] + rest;
      ParseText(s);
      RenderVerbatim(text[1..], rest, args);
      RenderCons(Text([text[0]]), Parse(s[1..]), args);
    }
  }

  lemma RenderConversion(mods: string, c: char, rest: string, slot: Slot, args: seq<Slot>)
    requires AllModifiers(mods) && IsConversion(c)
    ensures Render(Parse("%" + mods + [c] + rest), [slot] + args) == Field(mods, c, slot) + Render(Parse(rest), args)
  {
    hide Field, Parse, Render;
    var s, k := "%" + mods + [c] + rest, |mods| + 1;
    assert s[1..k] == mods && s[k] == c && s[k + 1..] == rest;
    ParseSpecification(s, k);
    RenderCons(Convert(mods, c), Parse(rest), [slot] + args);
    assert ([slot] + args)[1..] == args;
  }

  lemma RenderLast(mods: string, c: char, slot: Slot)
    requires AllModifiers(mods) && IsConversion(c)
    ensures Render(Parse("%" + mods + [c]), [slot]) == Field(mods, c, slot)
  {
    hide Field;
    assert "%" + mods + [c] == "%" + mods + [c] + "" && [slot] == [slot] + [];
    RenderConversion(mods, c, "", slot, []);
  }

  // ---------------------------------------------------------------- The modifiers in use

  function DigitOf(c: char): string { if '0' <= c <= '9' then [c] else [] }

  lemma WidthDigits2(a: char, b: char)
    ensures WidthDigits([a, b]) == DigitOf(a) + DigitOf(b)
    ensures WidthDigits([a]) == DigitOf(a)
  {
    assert [] + [a] == [a] && [a] + [b] == [a, b];
    WidthDigitsStep([], a);
    WidthDigitsStep([a], b);
  }

  lemma WidthDigits4(a: char, b: char, c: char, d: char)
    ensures WidthDigits([a, b, c, d]) == DigitOf(a) + DigitOf(b) + DigitOf(c) + DigitOf(d)
  {
    WidthDigits2(a, b);
    assert [a, b] + [c] == [a, b, c] && [a, b, c] + [d] == [a, b, c, d];
    WidthDigitsStep([a, b], c);
    WidthDigitsStep([a, b, c], d);
  }

  lemma Value3(a: char, b: char, c: char)
    ensures Value([a], 10) == DigitValue(a)
    ensures Value([a, b], 10) == 10 * DigitValue(a) + DigitValue(b)
    ensures Value([a, b, c], 10) == 100 * DigitValue(a) + 10 * DigitValue(b) + DigitValue(c)
  {
    assert [] + [a] == [a] && [a] + [b] == [a, b] && [a, b] + [c] == [a, b, c];
    ValueStep([], a, 10);
    ValueStep([a], b, 10);
    ValueStep([a, b], c, 10);
  }

  lemma Modifiers016l()
    ensures var m := "016l"; Width(m) == 16 && ZeroPad(m) && !LeftAlign(m) && SizeLong(m) && !Alternate(m)
  {
    hide WidthDigits, Value;
    WidthDigits4('0', '1', '6', 'l');
    Value3('0', '1', '6');
    assert "016l" == ['0', '1', '6', 'l'] && WidthDigits("016l") == ['0', '1', '6'];
    assert forall x: char :: x in "016l" <==> x == '0' || x == '1' || x == '6' || x == 'l';
  }

  lemma Modifiers4()
    ensures var m := "04"; Width(m) == 4 && ZeroPad(m) && !LeftAlign(m) && !SizeLong(m) && !Alternate(m)
    ensures var m := "-4"; Width(m) == 4 && LeftAlign(m)
  {
    hide WidthDigits, Value;
    WidthDigits2('0', '4');
    WidthDigits2('-', '4');
    Value3('0', '4', '4');
    Value3('4', '4', '4');
    assert "04" == ['0', '4'] && WidthDigits("04") == ['0', '4'];
    assert "-4" == ['-', '4'] && WidthDigits("-4") == ['4'];
    assert forall x: char :: x in "04" <==> x == '0' || x == '4';
    assert "-4"[0] == '-';
  }

  lemma ModifiersL()
    ensures var m := "l"; Width(m) == 0 && !ZeroPad(m) && !LeftAlign(m) && SizeLong(m) && !Alternate(m)
    ensures Width("") == 0 && !SignPlus("l") && !SignSpace("l")
  {
    WidthDigitsStep("", 'l');
    assert "l" == "" + ['l'];
    assert "l"[0] == 'l' && '+' !in "l" && ' ' !in "l";
  }

  lemma HexField(v: nat)
    requires v < U64
    ensures Field("016l", 'x', IntSlot(v)) == Hex16(v)
  {
    Modifiers016l();
    IntSlotReads(v);
  }

  lemma PlainFields(c: char, off: int, len: nat)
    requires c as int < 256 && -(U64 / 2) <= off < U64 / 2 && len < U64
    ensures Field("", 'c', IntSlot(c as int)) == [c]
    ensures Field("l", 'd', IntSlot(off)) == SignedDecimal(off)
    ensures Field("l", 'u', IntSlot(len)) == Numeral(len, 10)
  {
    ModifiersL();
    hide Width, ZeroPad, LeftAlign, SizeLong, Alternate, SignPlus, SignSpace, Numeral;
    IntSlotReads(off);
    IntSlotReads(len);
  }

  lemma TextFields(perm: string, seal: string)
    requires 0 < |perm| < 0x1000 && 0 < |seal| < 0x1000
    ensures Field("", 's', LocalPtr(perm)) == CString(perm)
    ensures Field("-4", 's', LocalPtr(seal)) == Pad(CString(seal), 4, true, ' ')
  {
    ModifiersL();
    Modifiers4();
    LocalPtrReads(perm);
    LocalPtrReads(seal);
  }

  // ---------------------------------------------------------------- The three formats

  function CapArgs(i: CapInfo, perm: string, seal: string): seq<Slot> {
    [IntSlot(i.address), IntSlot(if i.tag then '1' as int else '0' as int), IntSlot(i.base), IntSlot(i.limit),
     LocalPtr(perm), LocalPtr(seal), IntSlot(i.offset), IntSlot(i.length)]
  }

  lemma CapFormatTail(perm: Slot, seal: Slot, off: Slot, len: Slot)
    ensures Render(Parse(TAIL_FORMAT), [perm, seal, off, len]) ==
            Field("", 's', perm) + " " + Field("-4", 's', seal) + " " + Field("l", 'd', off)
            + " of " + Field("l", 'u', len)
  {
    hide Field, Parse, Render;
    var f3 := "%lu";
    var f2 := "%ld" + (" of " + f3);
    var f1 := "%-4s" + (" " + f2);
    var f0 := "%s" + (" " + f1);
    assert f0 == TAIL_FORMAT;
    assert "%" + "" + ['s'] + (" " + f1) == f0 && "%" + "-4" + ['s'] + (" " + f2) == f1;
    assert "%" + "l" + ['d'] + (" of " + f3) == f2 && "%" + "l" + ['u'] == f3;
    RenderConversion("", 's', " " + f1, perm, [seal, off, len]);
    RenderVerbatim(" ", f1, [seal, off, len]);
    RenderConversion("-4", 's', " " + f2, seal, [off, len]);
    RenderVerbatim(" ", f2, [off, len]);
    RenderConversion("l", 'd', " of " + f3, off, [len]);
    RenderVerbatim(" of ", f3, [len]);
    RenderLast("l", 'u', len);
    assert [perm] + [seal, off, len] == [perm, seal, off, len];
    assert [seal] + [off, len] == [seal, off, len] && [off] + [len] == [off, len];
  }

  lemma CapFormatBounds(base: Slot, limit: Slot, args: seq<Slot>)
    ensures Render(Parse(BOUNDS_FORMAT), [base, limit] + args) ==
            Field("016l", 'x', base) + ":" + Field("016l", 'x', limit) + ") " + Render(Parse(TAIL_FORMAT), args)
  {
    hide Field, Parse, Render, TAIL_FORMAT;
    var f4 := TAIL_FORMAT;
    var f3 := "%016lx" + (") " + f4);
    var f2 := "%016lx" + (":" + f3);
    assert f2 == BOUNDS_FORMAT;
    assert "%" + "016l" + ['x'] + (":" + f3) == f2 && "%" + "016l" + ['x'] + (") " + f4) == f3;
    var a3 := [limit] + args;
    assert [base] + a3 == [base, limit] + args;
    RenderConversion("016l", 'x', ":" + f3, base, a3);
    RenderVerbatim(":", f3, a3);
    RenderConversion("016l", 'x', ") " + f4, limit, args);
    RenderVerbatim(") ", f4, args);
  }

  lemma CapFormatHead(addr: Slot, tag: Slot, args: seq<Slot>)
    ensures Render(Parse(CAP_FORMAT), [addr, tag] + args) ==
            Field("016l", 'x', addr) + " " + Field("", 'c', tag) + " ["
            + Render(Parse(BOUNDS_FORMAT), args)
  {
    hide Field, Parse, Render, BOUNDS_FORMAT;
    var f2 := BOUNDS_FORMAT;
    var f1 := "%c" + (" [" + f2);
    var f0 := "%016lx" + (" " + f1);
    assert f0 == CAP_FORMAT;
    assert "%" + "016l" + ['x'] + (" " + f1) == f0 && "%" + "" + ['c'] + (" [" + f2) == f1;
    var a1 := [tag] + args;
    assert [addr] + a1 == [addr, tag] + args;
    RenderConversion("016l", 'x', " " + f1, addr, a1);
    RenderVerbatim(" ", f1, a1);
    RenderConversion("", 'c', " [" + f2, tag, args);
    RenderVerbatim(" [", f2, args);
  }

  lemma LineRegroups(h: string, p: string, s: string, o: string, n: string)
    ensures h + p + " " + s + " " + o + " of " + n == h + (p + " " + s + " " + o + " of " + n)
  {
  }

  lemma HeadRegroups(a: string, t: string, b: string, l: string, rest: string)
    ensures a + " " + t + " [" + (b + ":" + l + ") " + rest) == a + " " + t + " [" + b + ":" + l + ") " + rest
  {
  }

  lemma CapFormatSpelled()
    ensures CAP_FORMAT == "%016lx %c [%016lx:%016lx) %s %-4s %ld of %lu"
  {
  }

  /** The long format renders a capability's fields as `CapLine`. */
  lemma CapFormatRenders(i: CapInfo, perm: string, seal: string)
    requires i.Valid() && 0 < |perm| < 0x1000 && 0 < |seal| < 0x1000
    requires CString(perm) == PermsText(i.perms) && CString(seal) == SealText(i.otype)
    ensures Render(Parse(CAP_FORMAT), CapArgs(i, perm, seal)) == CapLine(i)
  {
    hide Field, Parse, Render, Hex16, Pad, PermsText, SealText, SignedDecimal, Numeral, CString, IntSlot, LocalPtr;
    var c := if i.tag then '1' else '0';
    var tail := [LocalPtr(perm), LocalPtr(seal), IntSlot(i.offset), IntSlot(i.length)];
    CapFormatHead(IntSlot(i.address), IntSlot(c as int), [IntSlot(i.base), IntSlot(i.limit)] + tail);
    CapFormatBounds(IntSlot(i.base), IntSlot(i.limit), tail);
    CapFormatTail(LocalPtr(perm), LocalPtr(seal), IntSlot(i.offset), IntSlot(i.length));
    assert CapArgs(i, perm, seal) ==
           [IntSlot(i.address), IntSlot(c as int)] + ([IntSlot(i.base), IntSlot(i.limit)] + tail);
    HexField(i.address);
    HexField(i.base);
    HexField(i.limit);
    PlainFields(c, i.offset, i.length);
    TextFields(perm, seal);
    HeadRegroups(Hex16(i.address), TagText(i.tag), Hex16(i.base), Hex16(i.limit), Render(Parse(TAIL_FORMAT), tail));
    LineRegroups(Hex16(i.address) + " " + TagText(i.tag) + " [" + Hex16(i.base) + ":" + Hex16(i.limit) + ") ",
                 PermsText(i.perms), Pad(SealText(i.otype), 4, true, ' '), SignedDecimal(i.offset),
                  Numeral(i.length, 10));
  }

  lemma HalvesFormatRenders(p: Ptr)
    requires p.Valid()
    ensures Render(Parse(HALVES_FORMAT),
                   [IntSlot(if p.cap.tag then '1' as int else '0' as int), IntSlot(p.high), IntSlot(p.cap.address)])
            == CapHalves(p)
  {
    hide Field, Parse, Render, Hex16;
    var c := if p.cap.tag then '1' else '0';
    var tag, hi, lo := IntSlot(c as int), IntSlot(p.high), IntSlot(p.cap.address);
    var f2 := "%016lx";
    var f1 := "%016lx" + (":" + f2);
    var f0 := "%c" + (":" + f1);
    assert f0 == HALVES_FORMAT;
    assert "%" + "" + ['c'] + (":" + f1) == f0 && "%" + "016l" + ['x'] + (":" + f2) == f1;
    assert "%" + "016l" + ['x'] == f2;
    assert [tag] + [hi, lo] == [tag, hi, lo] && [hi] + [lo] == [hi, lo];
    RenderConversion("", 'c', ":" + f1, tag, [hi, lo]);
    RenderVerbatim(":", f1, [hi, lo]);
    RenderConversion("016l", 'x', ":" + f2, hi, [lo]);
    RenderVerbatim(":", f2, [lo]);
    RenderLast("016l", 'x', lo);
    HexField(p.high);
    HexField(p.cap.address);
    PlainFields(c, 0, 0);
  }

  lemma SealField(otype: nat)
    requires LB < otype <= MAX_OTYPE
    ensures Field("04", 'x', IntSlot(otype)) == SealText(otype)
  {
    hide Width, ZeroPad, LeftAlign, SizeLong, Alternate, Numeral;
    Modifiers4();
    assert UnsignedArg(IntSlot(otype), false) == otype;
  }

  lemma SealFormatRenders(otype: nat)
    requires LB < otype <= MAX_OTYPE
    ensures Render(Parse(SEAL_FORMAT), [IntSlot(otype)]) == SealText(otype)
  {
    assert SEAL_FORMAT == "%" + "04" + ['x'];
    SealField(otype);
    hide Field, Parse, Render, SealText;
    RenderLast("04", 'x', IntSlot(otype));
  }
}
