/**
 * What the formatter prints, said about characters, argument values and output texts themselves: which
 * number an argument stands for, where padding and signs go, and which characters select what.
 */
module FormatLaws {
  import opened Capability
  import opened Digits
  import opened Strings
  import opened Fields
  import opened CapText
  import opened Format
  import opened FixedFormats

  // ---------------------------------------------------------------- Numbers and padding

  /** Numerals are formed by repeated division, with the digits in their usual order. */
  lemma NumeralSpelled(v: nat)
    ensures v < 10 ==> Numeral(v, 10) == [('0' as int + v) as char]
    ensures v >= 10 ==> Numeral(v, 10) == Numeral(v / 10, 10) + [('0' as int + v % 10) as char]
    ensures 10 <= v < 16 ==> Numeral(v, 16) == [('a' as int + v - 10) as char]
    ensures v < 10 ==> Numeral(v, 16) == [('0' as int + v) as char]
    ensures v >= 16 ==> Numeral(v, 16) == Numeral(v / 16, 16) + Numeral(v % 16, 16)
  {
  }

  /** Parsing reads digits by position. */
  lemma ValueSpelled(t: string, c: char)
    ensures Value("", 10) == Value("", 16) == 0
    ensures '0' <= c <= '9' ==> Value(t + [c], 10) == 10 * Value(t, 10) + (c as int - '0' as int)
    ensures '0' <= c <= '9' ==> Value(t + [c], 16) == 16 * Value(t, 16) + (c as int - '0' as int)
    ensures 'a' <= c <= 'f' ==> Value(t + [c], 16) == 16 * Value(t, 16) + (c as int - 'a' as int + 10)
  {
    ValueStep(t, c, 10);
    ValueStep(t, c, 16);
  }

  /** A padded text is as long as the wider of body and field; what is added stands on the side opposite to the body. */
  lemma PadSpelled(body: string, width: nat, left: bool, fill: char)
    ensures var t := Pad(body, width, left, fill);
            && |t| == (if |body| < width then width else |body|)
            && (left ==> t[..|body|] == body && forall i :: |body| <= i < |t| ==> t[i] == ' ')
            && (!left ==> t[|t| - |body|..] == body && forall i :: 0 <= i < |t| - |body| ==> t[i] == fill)
  {
  }

  lemma {:induction false} WidthDigitsJoin(a: string, b: string)
    ensures WidthDigits(a + b) == WidthDigits(a) + WidthDigits(b)
  {
    if b == [] {
      assert a + b == a;
    } else {
      var n := |b| - 1;
      WidthDigitsJoin(a, b[..n]);
      assert a + b == a + b[..n] + [b[n]] && b == b[..n] + [b[n]];
      WidthDigitsStep(a + b[..n], b[n]);
      WidthDigitsStep(b[..n], b[n]);
    }
  }

  lemma {:induction false} WidthDigitsOf(s: string, digits: bool)
    requires forall i :: 0 <= i < |s| ==> ('0' <= s[i] <= '9') == digits
    ensures WidthDigits(s) == if digits then s else ""
  {
    if s != [] {
      WidthDigitsOf(s[..|s| - 1], digits);
      assert s == s[..|s| - 1] + [s[|s| - 1]];
    }
  }

  /** The width is the number written among the flags, and zero padding is asked for by its leading zero. */
  lemma WidthSpelled(flags: string, digits: string, more: string)
    requires forall i :: 0 <= i < |flags| ==> !('0' <= flags[i] <= '9')
    requires forall i :: 0 <= i < |more| ==> !('0' <= more[i] <= '9')
    requires forall i :: 0 <= i < |digits| ==> '0' <= digits[i] <= '9'
    ensures Width(flags + digits + more) == Value(digits, 10)
    ensures ZeroPad(flags + digits + more) <==> digits != "" && digits[0] == '0'
  {
    WidthDigitsJoin(flags + digits, more);
    WidthDigitsJoin(flags, digits);
    WidthDigitsOf(flags, false);
    WidthDigitsOf(more, false);
    WidthDigitsOf(digits, true);
    assert "" + digits + "" == digits;
  }

  lemma HeldValue(mods: string, slot: Slot, v: int)
    requires HoldsSigned('l' in mods || 'z' in mods || 't' in mods, slot.cap.address, v)
    ensures SignedArg(slot, SizeLong(mods)) == v
  {
    SignedArgIs(slot, SizeLong(mods), v);
  }

  // ---------------------------------------------------------------- Conversions

  /** The field of `%d` and `%i`, for every modifier string. */
  lemma SignedConversion(mods: string, c: char, slot: Slot, v: int)
    requires c == 'd' || c == 'i'
    requires HoldsSigned('l' in mods || 'z' in mods || 't' in mods, slot.cap.address, v)
    ensures ReadSigned(Field(mods, c, slot)) == v
    ensures v < 0 ==> Field(mods, c, slot) == "-" + Numeral(-v, 10)
    ensures v >= 0 && '+' in mods ==> Field(mods, c, slot) == "+" + Numeral(v, 10)
    ensures v >= 0 && '+' !in mods && ' ' in mods ==> Field(mods, c, slot) == " " + Numeral(v, 10)
    ensures v >= 0 && '+' !in mods && ' ' !in mods ==>
              Field(mods, c, slot) == Pad(Numeral(v, 10), Width(mods), '-' in mods, if ZeroPad(mods) then '0' else ' ')
  {
    hide Numeral, Width, ZeroPad, Pad, ReadSigned;
    HeldValue(mods, slot, v);
    SignedFieldReads(mods, slot);
  }

  /** The fields of `%u` and `%x`. */
  lemma UnsignedConversion(mods: string, slot: Slot, v: nat)
    requires HoldsUnsigned('l' in mods || 'z' in mods || 't' in mods, slot.cap.address, v)
    ensures ReadUnsigned(Field(mods, 'u', slot), 10) == ReadUnsigned(Field(mods, 'x', slot), 16) == v
    ensures Field(mods, 'u', slot) ==
            Pad(Numeral(v, 10), Width(mods), '-' in mods, if ZeroPad(mods) then '0' else ' ')
    ensures Field(mods, 'x', slot) ==
            Pad((if '#' in mods then "0x" else "") + Numeral(v, 16), Width(mods), '-' in mods,
                if ZeroPad(mods) then '0' else ' ')
  {
    hide Numeral, Width, ZeroPad, Pad, ReadUnsigned;
    UnsignedArgIs(slot, SizeLong(mods), v);
    UnsignedFieldReads(mods, slot, SizeLong(mods), false);
    UnsignedFieldReads(mods, slot, SizeLong(mods), true);
    assert "" + Numeral(v, 10) == Numeral(v, 10);
  }

  /** The field of `%p` without `#`: the address in hexadecimal, without prefix. */
  lemma PointerConversion(mods: string, slot: Slot, v: nat)
    requires '#' !in mods && HoldsUnsigned(true, slot.cap.address, v)
    ensures ReadUnsigned(Field(mods, 'p', slot), 16) == v
    ensures Field(mods, 'p', slot) ==
            Pad(Numeral(v, 16), Width(mods), '-' in mods, if ZeroPad(mods) then '0' else ' ')
  {
    hide Numeral, Width, ZeroPad, Pad, ReadUnsigned;
    UnsignedArgIs(slot, true, v);
    UnsignedFieldReads(mods, slot, true, true);
    assert "" + Numeral(v, 16) == Numeral(v, 16);
  }

  /** The field of `%s`: the string behind the pointer, or what stands for a pointer that cannot be read. */
  lemma StringConversion(mods: string, slot: Slot)
    ensures slot.cap.address == 0 ==> Field(mods, 's', slot) == Pad("(null)", Width(mods), '-' in mods, ' ')
    ensures slot.cap.address != 0 && !slot.cap.Deref() ==>
              Field(mods, 's', slot) == Pad("(invalid)", Width(mods), '-' in mods, ' ')
    ensures slot.cap.address != 0 && slot.cap.Deref() ==>
              Field(mods, 's', slot) == Pad(CString(slot.bytes), Width(mods), '-' in mods, ' ')
  {
  }

  /** `%c` prints the low byte of its argument, and `%n` nothing. */
  lemma CharConversion(mods: string, slot: Slot, b: nat)
    requires b < 256 && (slot.cap.address - b) % 256 == 0
    ensures Field(mods, 'c', slot) == [b as char] && Field(mods, 'n', slot) == ""
  {
  }

  /** `%+#p`: the text shows every field of the capability; an untagged NULL has length zero. */
  lemma CapConversion(mods: string, slot: Slot)
    requires '#' in mods && '+' in mods && slot.cap.Valid()
    ensures var t, cap := Field(mods, 'p', slot), slot.cap;
            && 79 <= |t| <= 123
            && var i := ReadCap(t);
            && i.address == cap.address && i.tag == cap.tag && i.base == cap.base
            && i.perms == cap.perms && i.otype == cap.otype
            && (cap.base + i.offset - cap.address) % 0x1_0000_0000_0000_0000 == 0
            && -0x8000_0000_0000_0000 <= i.offset < 0x8000_0000_0000_0000
            && i.length == (if cap.address == 0 && !cap.tag then 0 else cap.length)
            && (i.base + i.length - i.limit) % 0x1_0000_0000_0000_0000 == 0 && 0 <= i.limit < 0x1_0000_0000_0000_0000
  {
    hide CapLine, ReadCap;
    InfoValid(slot.cap);
    CapLineReads(ZeroInfo(slot.cap));
    InfoMeans(slot.cap);
  }

  /** `%#p`: tag, upper half and address. */
  lemma HalvesConversion(mods: string, slot: Slot)
    requires '#' in mods && '+' !in mods && slot.Valid()
    ensures var t := Field(mods, 'p', slot);
            && |t| == 35 && t[0] == (if slot.cap.tag then '1' else '0') && t[1] == ':' && t[18] == ':'
            && Value(t[2..18], 16) == slot.high && Value(t[19..35], 16) == slot.cap.address
  {
    hide Value;
    CapHalvesReads(slot);
    HalvesColons(slot);
  }

  lemma HalvesColons(p: Ptr)
    requires p.Valid()
    ensures |CapHalves(p)| == 35 && CapHalves(p)[1] == ':' && CapHalves(p)[18] == ':'
    ensures CapHalves(p)[0] == if p.cap.tag then '1' else '0'
  {
    CapHalvesReads(p);
    Hex16Reads(p.high % U64);
    var hi, lo := Hex16(p.high % U64), Hex16(p.cap.address % U64);
    assert CapHalves(p) == TagText(p.cap.tag) + ":" + hi + ":" + lo;
  }

  // ---------------------------------------------------------------- Format strings

  /** What stands for one specification, followed by the meaning of the rest. */
  lemma SpecificationRenders(mods: string, c: char, rest: string, args: seq<Slot>)
    requires forall i :: 0 <= i < |mods| ==> '0' <= mods[i] <= '9' || mods[i] in "-lzt +#"
    requires !('0' <= c <= '9') && c !in "-lzt +#" && c != NUL
    ensures var all := Render(Parse("%" + mods + [c] + rest), args);
            && (c == '%' ==> all == "%" + Render(Parse(rest), args))
            && (c in "scnpxuid" && args != [] ==> all == Field(mods, c, args[0]) + Render(Parse(rest), args[1..]))
            && (c == 'p' && '#' in mods && args == [] ==> all == Render(Parse(rest), []))
            && (c in "scnpxuid" && args == [] && !(c == 'p' && '#' in mods) ==>
                  all == "%" + mods + [c] + Render(Parse(rest), []))
            && (c != '%' && c !in "scnpxuid" ==> all == "%" + mods + [c] + Render(Parse(rest), args))
  {
    hide Field, Render, Parse;
    var s, k := "%" + mods + [c] + rest, |mods| + 1;
    assert s[1..k] == mods && s[k] == c && s[k + 1..] == rest;
    ModifierCharacters(mods, c);
    ParseSpecification(s, k);
    RenderCons(Classify(mods, c), Parse(rest), args);
    assert "" + Render(Parse(rest), []) == Render(Parse(rest), []);
  }

  lemma ModifierCharacters(mods: string, c: char)
    ensures IsModifier(c) <==> '0' <= c <= '9' || c in "-lzt +#"
    ensures IsConversion(c) <==> c in "scnpxuid"
    ensures (forall i :: 0 <= i < |mods| ==> '0' <= mods[i] <= '9' || mods[i] in "-lzt +#") ==> AllModifiers(mods)
  {
  }

  /** `%d` on its own prints the `int` that it is given. */
  lemma PlainDecimal(slot: Slot, v: int)
    requires -0x8000_0000 <= v < 0x8000_0000 && (slot.cap.address - v) % 0x1_0000_0000 == 0
    ensures var t := Render(Parse("%d"), [slot]);
            ReadSigned(t) == v && t == if v < 0 then "-" + Numeral(-v, 10) else Numeral(v, 10)
  {
    hide Numeral, ReadSigned, Field, Parse, Render;
    assert "%d" == "%" + "" + ['d'];
    RenderLast("", 'd', slot);
    SignedConversion("", 'd', slot, v);
    WidthSpelled("", "", "");
    assert "" + "" + "" == "" && Value("", 10) == 0;
    NumeralPad(v);
  }

  lemma NumeralPad(v: int)
    ensures v >= 0 ==> Pad(Numeral(v, 10), 0, false, ' ') == Numeral(v, 10)
  {
  }

  /** What `%n` stores through `target` when `len` bytes of output came before: nothing if it cannot be written. */
  function Stored(target: Cap, len: nat, room: Room): seq<Count> {
    if target.Deref() then [Count(target, if room.Unlimited? || len < room.size then len else room.size)] else []
  }

  /** `%n` stores how much of the output in front of it was taken. */
  lemma {:induction false} CountStored(pre: seq<Directive>, mods: string, post: seq<Directive>, args: seq<Slot>,
                                       len: nat, room: Room)
    requires |args| > Conversions(pre)
    ensures var k, at := Conversions(pre), len + |Render(pre, args)|;
            Stores(pre + ([Convert(mods, 'n')] + post), args, len, room) ==
            Stores(pre, args, len, room) + (Stored(args[k].cap, at, room) + Stores(post, args[k + 1..], at, room))
  {
    hide Render, Stores, Conversions, DirectiveText, DirectiveStores, Rest, Stored;
    var here := [Convert(mods, 'n')] + post;
    if pre == [] {
      EmptyMeaning(args, len, room);
      assert pre + here == here;
      CountHere(mods, post, args, len, room);
    } else {
      var d, tail := pre[0], pre[1..];
      assert pre == [d] + tail && pre + here == [d] + (tail + here);
      ConversionsCons(d, tail, args);
      CountStored(tail, mods, post, Rest(d, args), len + |DirectiveText(d, args)|, room);
      CountLater(d, tail, here, args, len, room);
    }
  }

  /** One directive in front adds its text and its counts. */
  lemma CountLater(d: Directive, tail: seq<Directive>, here: seq<Directive>, args: seq<Slot>, len: nat, room: Room)
    ensures var more, text := Rest(d, args), DirectiveText(d, args);
            && |Render([d] + tail, args)| == |text| + |Render(tail, more)|
            && Stores([d] + tail, args, len, room)
               == DirectiveStores(d, args, len, room) + Stores(tail, more, len + |text|, room)
            && Stores([d] + (tail + here), args, len, room)
               == DirectiveStores(d, args, len, room) + Stores(tail + here, more, len + |text|, room)
  {
    hide Field, Stores;
    RenderCons(d, tail, args);
    StoresCons(d, tail, args, len, room);
    StoresCons(d, tail + here, args, len, room);
  }

  lemma ConversionsCons(d: Directive, tail: seq<Directive>, args: seq<Slot>)
    requires |args| > Conversions([d] + tail)
    ensures var more := Rest(d, args);
            && |more| > Conversions(tail) && more[Conversions(tail)] == args[Conversions([d] + tail)]
            && more[Conversions(tail) + 1..] == args[Conversions([d] + tail) + 1..]
  {
    assert ([d] + tail)[1..] == tail;
  }

  lemma EmptyMeaning(args: seq<Slot>, len: nat, room: Room)
    ensures Render([], args) == "" && Stores([], args, len, room) == [] && Conversions([]) == 0
  {
  }

  lemma CountHere(mods: string, post: seq<Directive>, args: seq<Slot>, len: nat, room: Room)
    requires args != []
    ensures Stores([Convert(mods, 'n')] + post, args, len, room) ==
            Stored(args[0].cap, len, room) + Stores(post, args[1..], len, room)
  {
    StoresCons(Convert(mods, 'n'), post, args, len, room);
    hide Stores;
    assert |DirectiveText(Convert(mods, 'n'), args)| == 0;
  }
}
