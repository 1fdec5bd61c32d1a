/**
 * The formatter itself: the scanner `printf_core` with its conversions, `sprintf`, and the capability
 * printers that it calls and that call it (`src/freestanding/src/printf.c`, `src/util/capprint.c`).
 */
module Printf {
  import opened Capability
  import opened Digits
  import opened Strings
  import opened Fields
  import opened CapText
  import opened Format
  import opened FixedFormats
  import opened Scanner
  import opened Sink

  ghost predicate ValidArgs(args: seq<Slot>) {
    forall i :: 0 <= i < |args| ==> args[i].Valid()
  }

  // ---------------------------------------------------------------- Conversions

  /** Text in a field: padding goes behind it when left-aligned and in front of it otherwise. */
  method EmitPadded(out: Output, text: string, width: nat, left: bool, fill: char) returns (n: nat)
    requires out.Valid()
    modifies out, out.buffer
    ensures out.Valid() && n == out.Taken() - old(out.Taken())
    ensures out.offered == old(out.offered) + Pad(text, width, left, fill)
  {
    ghost var had := out.offered;
    n := 0;
    if |text| < width {
      if left {
        n := out.Emit(text);
      }
      var l := width - |text|;
      var pad := seq(l, _ => if left then ' ' else fill);
      var k := out.Emit(pad);
      n := n + k;
      if left {
        assert pad == Fill(' ', l);
        Regroup(had, text, pad);
      } else {
        assert pad == Fill(fill, l);
        k := out.Emit(text);
        n := n + k;
        Regroup(had, pad, text);
      }
    } else {
      n := out.Emit(text);
      assert text + [] == text == [] + text;
    }
  }

  /** Case `s` */
  method EmitString(out: Output, feat: set<Feat>, width: nat, arg: Slot) returns (n: nat)
    requires out.Valid() && arg.Valid()
    modifies out, out.buffer
    ensures out.Valid() && n == out.Taken() - old(out.Taken())
    ensures out.offered == old(out.offered) + Pad(StringArg(arg), width, LEFT_ALIGN in feat, ' ')
  {
    hide Pad, CString;
    var text;
    if arg.cap.IsNull() {
      text := "(null)";
    } else if !arg.cap.Deref() {
      text := "(invalid)";
    } else {
      var len := StrLen(arg);
      CStringIsPrefix(arg.bytes);
      text := arg.bytes[..len];
      assert text == CString(arg.bytes);
    }
    n := EmitPadded(out, text, width, LEFT_ALIGN in feat, ' ');
  }

  /** Case `u`, and `x` and `p` once they have raised their flags. */
  method EmitUnsigned(out: Output, feat: set<Feat>, width: nat, arg: Slot, scratch: array<char>) returns (n: nat)
    requires out.Valid() && scratch.Length == 64 && scratch != out.buffer
    modifies out, out.buffer, scratch
    ensures out.Valid() && n == out.Taken() - old(out.Taken())
    ensures out.offered == old(out.offered)
            + Pad(UnsignedBody(arg, SIZE_LONG in feat, HEX in feat, ALTERNATE in feat), width, LEFT_ALIGN in feat,
                  if ZERO_PAD in feat then '0' else ' ')
  {
    hide Numeral, Pad;
    var v: nat;
    if SIZE_LONG in feat {
      v := arg.cap.address % U64;
    } else {
      v := arg.cap.address % U32;
    }
    var start;
    if HEX in feat {
      start := UintToStr(scratch, v, HEX_DIGITS, if ALTERNATE in feat then "x" else "");
    } else {
      start := UintToStr(scratch, v, DEC_DIGITS, "");
    }
    assert scratch[start..] == UnsignedBody(arg, SIZE_LONG in feat, HEX in feat, ALTERNATE in feat);
    n := EmitPadded(out, scratch[start..], width, LEFT_ALIGN in feat, if ZERO_PAD in feat then '0' else ' ');
  }

  /** The sign character, if any. */
  function SignOf(feat: set<Feat>, v: int): string {
    if v < 0 then "-" else if SIGN_PLUS in feat then "+" else if SIGN_SPACE in feat then " " else ""
  }

  function SignedText(feat: set<Feat>, width: nat, v: int): string {
    if SignOf(feat, v) != "" then SignOf(feat, v) + Numeral(Abs(v), 10)
    else Pad(Numeral(Abs(v), 10), width, LEFT_ALIGN in feat, if ZERO_PAD in feat then '0' else ' ')
  }

  /** Cases `i` and `d` */
  method EmitSigned(out: Output, feat: set<Feat>, width: nat, arg: Slot, scratch: array<char>) returns (n: nat)
    requires out.Valid() && scratch.Length == 64 && scratch != out.buffer
    modifies out, out.buffer, scratch
    ensures out.Valid() && n == out.Taken() - old(out.Taken())
    ensures out.offered == old(out.offered) + SignedText(feat, width, SignedArg(arg, SIZE_LONG in feat))
    ensures forall v :: HoldsSigned(SIZE_LONG in feat, arg.cap.address, v) ==>
              out.offered == old(out.offered) + SignedText(feat, width, v)
  {
    hide Numeral, Pad, HoldsSigned;
    forall v | HoldsSigned(SIZE_LONG in feat, arg.cap.address, v)
      ensures SignedArg(arg, SIZE_LONG in feat) == v
    {
      SignedArgIs(arg, SIZE_LONG in feat, v);
    }
    var v;
    if SIZE_LONG in feat {
      v := Signed(arg.cap.address % U64, U64);
    } else {
      v := Signed(arg.cap.address % U32, U32);
    }
    var sign;
    if v < 0 {
      sign := "-";
    } else if SIGN_PLUS in feat {
      sign := "+";
    } else if SIGN_SPACE in feat {
      sign := " ";
    } else {
      sign := "";
    }
    // the negation of the least value wraps around to 2^63 when it is read as unsigned
    var start := UintToStr(scratch, (if v < 0 then -v else v) % U64, DEC_DIGITS, sign);
    assert scratch[start..] == sign + Numeral(Abs(v), 10);
    if sign == "" {
      assert sign + Numeral(Abs(v), 10) == Numeral(Abs(v), 10);
      n := EmitPadded(out, scratch[start..], width, LEFT_ALIGN in feat, if ZERO_PAD in feat then '0' else ' ');
    } else {
      n := out.Emit(scratch[start..]);
    }
  }

  // ---------------------------------------------------------------- Capability printers

  /** `cap_perms_to_str`: eighteen letters or dashes, then a NUL. */
  method CapPermsToStr(dst: array<char>, cap: Cap)
    requires dst.Length >= 19
    modifies dst
    ensures dst[..18] == PermsText(cap.perms) && dst[18] == NUL && dst[19..] == old(dst[19..])
    ensures CString(dst[..]) == PermsText(cap.perms)
  {
    var k := 0;
    while k < |PERM_ORDER|
      invariant 0 <= k <= 18
      invariant dst[..k] == PermsText(cap.perms)[..k] && dst[18..] == old(dst[18..])
    {
      dst[k] := if PERM_ORDER[k] in cap.perms then PERM_NAMES[k] else '-';
      assert dst[..k + 1] == dst[..k] + [dst[k]];
      k := k + 1;
    }
    dst[k] := NUL;
    forall i | 0 <= i < 18
      ensures dst[i] != NUL
    {
      PermNamesNoDash(i);
      assert dst[i] == PermsText(cap.perms)[i];
    }
    CStringPrefix(dst[..], 18);
  }

  lemma SealTextFits(otype: nat)
    requires otype <= MAX_OTYPE
    ensures 2 <= |SealText(otype)| <= 4 && NUL !in SealText(otype)
    ensures CString(SealText(otype)) == SealText(otype)
  {
    hide Value;
    SealTextReads(otype);
    var s := SealText(otype);
    if otype > LB {
      NumeralValue(otype, 16);
      assert forall i :: 0 <= i < |s| ==> IsDigit(s[i], 16);
    }
    CStringPrefix(s, |s|);
  }

  /** `cap_seal_to_str`: a name for the reserved object types, four hexadecimal digits otherwise. */
  method CapSealToStr(dst: array<char>, cap: Cap)
    requires dst.Length >= 5 && cap.otype <= MAX_OTYPE
    modifies dst
    ensures CString(dst[..]) == SealText(cap.otype)
    decreases 0, 5
  {
    hide Parse, Render, CString, Written;
    SealTextFits(cap.otype);
    var otype := cap.otype;
    var n;
    if otype == 0 {
      n := StrCpy(dst, 0, dst.Length, "none");
    } else if otype == 1 {
      n := StrCpy(dst, 0, dst.Length, "rb");
    } else if otype == 2 {
      n := StrCpy(dst, 0, dst.Length, "lpb");
    } else if otype == 3 {
      n := StrCpy(dst, 0, dst.Length, "lb");
    } else {
      SealFormatRenders(otype);
      IntSlotReads(otype);
      assert 'p' !in SEAL_FORMAT;
      ghost var before, text := dst[..], SealText(otype);
      n := SPrintf(dst, 0, dst.Length, SEAL_FORMAT, [IntSlot(otype)]);
      assert text[..n] == text;
      WrittenCString(before, 0, dst.Length, text);
    }
    assert dst[0..dst.Length] == dst[..] == dst[..][0..dst.Length];
  }

  lemma CapArgsValid(i: CapInfo, perm: string, seal: string)
    requires i.Valid() && 0 < |perm| < 0x1000 && 0 < |seal| < 0x1000
    ensures ValidArgs(CapArgs(i, perm, seal)) && 'p' !in CAP_FORMAT
  {
  }

  /** The text of a capability in a local buffer that is large enough for it. */
  method FormatCap(dst: array<char>, at: nat, lim: nat, cap: Cap, info: CapInfo) returns (n: nat)
    requires cap.Valid() && info.Valid() && info.perms == cap.perms && info.otype == cap.otype
    requires at + 124 <= lim <= dst.Length
    modifies dst
    ensures n == |CapLine(info)| && at + n + 1 <= lim
    ensures dst[..] == Written(old(dst[..]), at, CapLine(info) + [NUL])
    decreases 0, 6
  {
    hide Parse, Render, CapLine, ReadCap, PermsText, SealText, CString, Written;
    var perm := new char[19];
    var seal := new char[5];
    CapPermsToStr(perm, cap);
    CapSealToStr(seal, cap);
    CapFormatRenders(info, perm[..], seal[..]);
    CapLineReads(info);
    LocalPtrReads(perm[..]);
    LocalPtrReads(seal[..]);
    ghost var text := CapLine(info);
    CapArgsValid(info, perm[..], seal[..]);
    n := SPrintf(dst, at, lim, CAP_FORMAT, CapArgs(info, perm[..], seal[..]));
    assert text[..n] == text;
  }

  /** `cap_to_str` into the bytes `dst[at..lim]`. */
  method CapToStr(dst: array<char>, at: nat, lim: nat, cap: Cap)
    requires cap.Valid() && at + 124 <= lim <= dst.Length
    modifies dst
    ensures dst[..at] == old(dst[..at]) && CString(dst[at..lim]) == CapLine(PlainInfo(cap))
    ensures dst[lim..] == old(dst[lim..])
    ensures var t := CString(dst[at..lim]);
            && 79 <= |t| <= 123
            && var i := ReadCap(t);
            && i.address == cap.address && i.tag == cap.tag && i.base == cap.base
            && i.perms == cap.perms && i.otype == cap.otype && i.length == cap.length
            && (cap.base + i.offset - cap.address) % 0x1_0000_0000_0000_0000 == 0
            && -0x8000_0000_0000_0000 <= i.offset < 0x8000_0000_0000_0000
            && i.limit == if cap.base + cap.length < 0x1_0000_0000_0000_0000 then cap.base + cap.length else 0
    decreases 0, 7
  {
    hide CapLine, CString, Written, PlainInfo, ReadCap;
    InfoValid(cap);
    InfoMeans(cap);
    CapLineReads(PlainInfo(cap));
    LimitOf(cap.base, cap.length, PlainInfo(cap).limit);
    PlainInfoParts(cap);
    ghost var before, text := dst[..], CapLine(PlainInfo(cap));
    var n := FormatCap(dst, at, lim, cap, PlainInfo(cap));
    CapLineNoNul(PlainInfo(cap));
    CStringInPlace(before, dst[..], at, lim, text);
    assert dst[at..lim] == dst[..][at..lim] && dst[..at] == dst[..][..at] && dst[lim..] == dst[..][lim..];
  }

  lemma LimitOf(base: nat, length: nat, limit: nat)
    requires base + length <= U64 && limit < U64 && (base + length - limit) % U64 == 0
    ensures limit == if base + length < U64 then base + length else 0
  {
  }

  lemma PlainInfoParts(cap: Cap)
    ensures PlainInfo(cap).perms == cap.perms && PlainInfo(cap).otype == cap.otype
  {
  }

  lemma CStringInPlace(before: string, after: string, at: nat, lim: nat, text: string)
    requires at + |text| + 1 <= lim <= |before| && NUL !in text
    requires after == Written(before, at, text + [NUL])
    ensures |after| == |before| && CString(after[at..lim]) == text
    ensures after[..at] == before[..at] && after[lim..] == before[lim..]
  {
    hide CString;
    WrittenCString(before, at, lim, text);
  }

  lemma LineNoNul(a: string, t: string, b: string, l: string, p: string, s: string, o: string, n: string)
    requires NUL !in a && NUL !in t && NUL !in b && NUL !in l && NUL !in p && NUL !in s && NUL !in o && NUL !in n
    ensures NUL !in a + " " + t + " [" + b + ":" + l + ") " + p + " " + s + " " + o + " of " + n
  {
  }

  lemma PermsTextNoNul(perms: set<Perm>)
    ensures NUL !in PermsText(perms)
  {
    forall k | 0 <= k < 18
      ensures PermsText(perms)[k] != NUL
    {
      PermNamesNoDash(k);
    }
  }

  lemma SignedNoNul(v: int)
    ensures NUL !in SignedDecimal(v)
  {
    NumeralValue(Abs(v), 10);
  }

  lemma CapLineNoNul(i: CapInfo)
    requires i.Valid()
    ensures NUL !in CapLine(i)
  {
    hide Hex16, PermsText, SealText, Numeral, SignedDecimal;
    Hex16NoNul(i.address);
    Hex16NoNul(i.base);
    Hex16NoNul(i.limit);
    SealTextFits(i.otype);
    PermsTextNoNul(i.perms);
    SignedNoNul(i.offset);
    NumeralValue(i.length, 10);
    LineNoNul(Hex16(i.address), TagText(i.tag), Hex16(i.base), Hex16(i.limit), PermsText(i.perms),
              Pad(SealText(i.otype), 4, true, ' '), SignedDecimal(i.offset), Numeral(i.length, 10));
  }

  lemma Hex16NoNul(v: nat)
    requires v < U64
    ensures NUL !in Hex16(v)
  {
    NumeralValue(v, 16);
  }

  /** The two alternate forms of `p`, through a local buffer. */
  method EmitCap(out: Output, arg: Slot, long: bool) returns (n: nat)
    requires out.Valid() && arg.Valid()
    modifies out, out.buffer
    ensures out.Valid() && n == out.Taken() - old(out.Taken())
    ensures out.offered == old(out.offered) + if long then CapLine(ZeroInfo(arg.cap)) else CapHalves(arg)
    decreases 1, 0
  {
    hide Parse, Render, CapLine, ReadCap, CapHalves, Written;
    if long {
      var capstr := new char[128];
      ghost var before, text := capstr[..], CapLine(ZeroInfo(arg.cap));
      InfoValid(arg.cap);
      CapLineReads(ZeroInfo(arg.cap));
      var sz := FormatCap(capstr, 0, 128, arg.cap, ZeroInfo(arg.cap));
      WrittenParts(before, 0, text + [NUL]);
      assert capstr[..sz] == capstr[..][0..0 + |text + [NUL]|][..sz] == text;
      n := out.Emit(capstr[..sz]);
    } else {
      var capstr := new char[48];
      ghost var before, text := capstr[..], CapHalves(arg);
      var tag := if arg.cap.tag then '1' else '0';
      HalvesFormatRenders(arg);
      CapHalvesReads(arg);
      IntSlotReads(tag as int);
      IntSlotReads(arg.high);
      IntSlotReads(arg.cap.address);
      var sz := SPrintf(capstr, 0, 48, HALVES_FORMAT,
                        [IntSlot(tag as int), IntSlot(arg.high), IntSlot(arg.cap.address)]);
      assert text[..sz] == text;
      WrittenParts(before, 0, text + [NUL]);
      assert capstr[..sz] == capstr[..][0..0 + |text + [NUL]|][..sz] == text;
      n := out.Emit(capstr[..sz]);
    }
  }

  function PointerText(feat: set<Feat>, width: nat, arg: Slot): string {
    if ALTERNATE in feat && SIGN_PLUS in feat then CapLine(ZeroInfo(arg.cap))
    else if ALTERNATE in feat then CapHalves(arg)
    else Pad(UnsignedBody(arg, true, true, false), width, LEFT_ALIGN in feat, if ZERO_PAD in feat then '0' else ' ')
  }

  /** Case `p`: two alternate forms, or a long hexadecimal number. */
  method EmitPointer(out: Output, feat0: set<Feat>, width: nat, arg: Slot, scratch: array<char>) returns (n: nat)
    requires out.Valid() && arg.Valid() && scratch.Length == 64 && scratch != out.buffer
    modifies out, out.buffer, scratch
    ensures out.Valid() && n == out.Taken() - old(out.Taken())
    ensures out.offered == old(out.offered) + PointerText(feat0, width, arg)
    decreases 1, 1
  {
    hide CapLine, CapHalves, ZeroInfo, Pad, UnsignedBody;
    var feat := feat0;
    if ALTERNATE in feat && SIGN_PLUS in feat {
      n := EmitCap(out, arg, true);
    } else if ALTERNATE in feat {
      n := EmitCap(out, arg, false);
    } else {
      feat := feat + {SIZE_LONG} + {HEX};
      n := EmitUnsigned(out, feat, width, arg, scratch);
    }
  }

  // ---------------------------------------------------------------- The scanner

  /** One supported conversion with its argument. */
  method Convert(out: Output, c: char, feat0: set<Feat>, width: nat, arg: Slot, n0: nat, scratch: array<char>,
                 ghost mods: string)
    returns (n: nat, counts: seq<Count>)
    requires out.Valid() && arg.Valid() && IsConversion(c) && scratch.Length == 64 && scratch != out.buffer
    requires feat0 == Feats(mods) && width == Width(mods) && n0 == out.Taken()
    modifies out, out.buffer, scratch
    ensures out.Valid() && n == out.Taken()
    ensures out.offered == old(out.offered) + Field(mods, c, arg)
    ensures counts == DirectiveStores(Directive.Convert(mods, c), [arg], |old(out.offered)|, out.Room())
    decreases if c == 'p' then 1 else 0, 2
  {
    hide Parse, Render, Stores, Feats, Width, Pad, Numeral, CapLine, CapHalves, StringArg, SignedArg, UnsignedArg;
    hide ZeroInfo;
    FeatsMean(mods);
    var feat := feat0;
    counts := [];
    var k := 0;
    match c {
      case 's' =>
        k := EmitString(out, feat, width, arg);
      case 'c' =>
        k := out.Emit([(arg.cap.address % 256) as char]);
      case 'n' =>
        if arg.cap.Deref() {
          counts := [Count(arg.cap, n0)];
        }
        assert out.offered + "" == out.offered;
      case 'p' =>
        k := EmitPointer(out, feat, width, arg, scratch);
      case 'x' =>
        feat := feat + {HEX};
        k := EmitUnsigned(out, feat, width, arg, scratch);
      case 'u' =>
        k := EmitUnsigned(out, feat, width, arg, scratch);
      case _ =>
        k := EmitSigned(out, feat, width, arg, scratch);
    }
    n := n0 + k;
  }

  /** One modifier character. */
  method Modify(c: char, feat0: set<Feat>, width0: nat) returns (feat: set<Feat>, width: nat)
    requires IsModifier(c)
    ensures feat == feat0 + RaisedBy(c, width0)
    ensures width == if '0' <= c <= '9' then 10 * width0 + (c as int - '0' as int) else width0
  {
    feat, width := feat0, width0;
    match c {
      case '0' =>
        if width != 0 {
          width := 10 * width;
        } else {
          feat := feat + {ZERO_PAD};
        }
      case '-' => feat := feat + {LEFT_ALIGN};
      case 'l' => feat := feat + {SIZE_LONG};
      case 'z' => feat := feat + {SIZE_LONG};
      case 't' => feat := feat + {SIZE_LONG};
      case ' ' => feat := feat + {SIGN_SPACE};
      case '+' => feat := feat + {SIGN_PLUS};
      case '#' => feat := feat + {ALTERNATE};
      case _ => width := 10 * width + (c as int - '0' as int);
    }
  }

  lemma NoModifiers(mods: string)
    requires mods == ""
    ensures AllModifiers(mods) && Feats(mods) == {} && Width(mods) == 0
  {
  }

  /**
   * `printf_core`: for every format and argument list the sink is offered exactly the meaning of the
   * format, the result is how much of it was taken, and every `%n` stores what was taken before it.
   */
  method PrintfCore(out: Output, fmt: string, args: seq<Slot>) returns (n: nat, counts: seq<Count>)
    requires out.Valid() && out.offered == "" && ValidArgs(args)
    modifies out, out.buffer
    ensures out.Valid() && n == out.Taken()
    ensures out.offered == Render(Parse(fmt), args)
    ensures counts == Stores(Parse(fmt), args, 0, out.Room())
    decreases if 'p' in fmt then 1 else 0, 3
  {
    hide Parse, Render, Stores, Field, DirectiveStores, Feats, Width, Job.Continues;
    ghost var job := Job(fmt, args, out.Room());
    var scratch := new char[64];
    var nargs: nat, next: nat := |args|, 0;
    n, counts := 0, [];
    var phase, feat, width := RESET, {}, 0;
    var p, a := 0, 0;
    Start(job);
    while p < |fmt| && fmt[p] != NUL
      invariant out.Valid() && n == out.Taken()
      invariant p <= |fmt| && nargs + next == |args|
      invariant job.Invariant(phase, feat, width, a, p, Progress(out.offered, counts, next))
    {
      var c := fmt[p];
      ghost var g := Progress(out.offered, counts, next);
      if phase == RESET {
        phase, feat, width, a := IDLE, {}, 0, p;
        assert fmt[p..p] == "";
      } else if phase == IDLE {
        feat, width := {}, 0;
      }
      if c == '%' {
        if phase == IDLE {
          phase := FORMAT;
          var k := out.Emit(fmt[a..p]);
          n := n + k;
          Flush(job, fmt[a..p], p, g);
          a := p;
          NoModifiers(fmt[a + 1..p + 1]);
        } else {
          phase := RESET;
          EndPercent(job, a, p, g);
          var k := out.Emit("%");
          n := n + k;
        }
      } else if phase == FORMAT {
        ghost var mods := fmt[a + 1..p];
        if IsModifier(c) {
          ModifierStep(mods, c);
          feat, width := Modify(c, feat, width);
          assert fmt[a + 1..p + 1] == mods + [c];
        } else if IsConversion(c) {
          if nargs > 0 {
            var arg := args[next];
            nargs := nargs - 1;
            EndConversion(job, a, p, g);
            var more;
            n, more := Convert(out, c, feat, width, arg, n, scratch, mods);
            counts := counts + more;
            next := next + 1;
            phase := RESET;
          } else if c == 'p' && ALTERNATE in feat {
            FeatsMean(mods);
            EndVanished(job, a, p, g);
            phase := RESET;
          } else {
            FeatsMean(mods);
            EndVerbatim(job, a, p, g);
            phase := IDLE;
          }
        } else {
          EndVerbatim(job, a, p, g);
          phase := IDLE;
        }
      } else {
        PassCharacter(job, a, p, g);
      }
      p := p + 1;
    }
    Finish(job, phase, feat, width, a, p, Progress(out.offered, counts, next));
    if phase != RESET && p > a {
      var k := out.Emit(fmt[a..p]);
      n := n + k;
    }
  }

  /** `printf`: everything goes to standard output. */
  method Printf(fmt: string, args: seq<Slot>) returns (n: nat, stream: string, counts: seq<Count>)
    requires ValidArgs(args)
    ensures stream == Render(Parse(fmt), args) && n == |stream|
    ensures counts == Stores(Parse(fmt), args, 0, Unlimited)
  {
    var out := new Output.Stdout();
    n, counts := PrintfCore(out, fmt, args);
    stream := out.stream;
  }

  /**
   * `sprintf` into the bytes `dst[at..lim]`: the longest prefix of the ideal output that leaves room for
   * a NUL, the NUL, and nothing else. A destination that sits at its limit has no room for either; then
   * the NUL goes in front of it, and the result is -1.
   */
  method SPrintf(dst: array<char>, at: nat, lim: nat, fmt: string, args: seq<Slot>) returns (r: int)
    requires at <= lim <= dst.Length && lim > 0 && ValidArgs(args)
    modifies dst
    ensures at < lim ==>
              var ideal := Render(Parse(fmt), args);
              && r == Min(|ideal|, lim - at - 1)
              && dst[..] == Written(old(dst[..]), at, ideal[..r] + [NUL])
    ensures at == lim ==> r == -1 && dst[..] == Written(old(dst[..]), at - 1, [NUL])
    decreases if 'p' in fmt then 1 else 0, 4
  {
    hide Parse, Render, Stores, Written;
    ghost var before, ideal := dst[..], Render(Parse(fmt), args);
    var h := new Output.Buffer(dst, at, lim);
    var counts;
    r, counts := PrintfCore(h, fmt, args);
    ghost var full := dst[..];
    assert full == Written(before, at, ideal[..r]);
    if h.dst == h.lim {
      r := r - 1;
      h.dst := h.dst - 1;
    }
    dst[h.dst] := NUL;
    assert dst[..] == full[at + r := NUL];
    if at < lim {
      WrittenNul(before, at, ideal, lim, r);
    } else {
      WrittenInFront(before, at);
    }
  }

  lemma WrittenNul(before: string, at: nat, ideal: string, lim: nat, r: nat)
    requires at < lim <= |before| && r == Min(|ideal|, lim - at - 1)
    ensures Written(before, at, ideal[..Min(|ideal|, lim - at)])[at + r := NUL] ==
            Written(before, at, ideal[..r] + [NUL])
  {
  }

  lemma WrittenInFront(before: string, at: nat)
    requires 0 < at <= |before|
    ensures Written(before, at, "")[at - 1 := NUL] == Written(before, at - 1, [NUL])
  {
  }
}
