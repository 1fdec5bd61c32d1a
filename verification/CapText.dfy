/** The printed form of a capability (`src/util/capprint.c`) and a reader that recovers every field. */
module CapText {
  import opened Capability
  import opened Digits
  import opened Strings
  import opened Fields

  /** The order of the permission letters, and the letters. */
  const PERM_ORDER: seq<Perm> :=
    [Global, Load, LoadCap, MutableLoad, Store, StoreCap, StoreLocalCap, Execute, Executive, SysReg,
     Seal, Unseal, CapInvoke, CmptId, Vmem, User1, User2, User3]
  const PERM_NAMES: string := "GrRMwWLxESsuICV123"

  function PermIndex(p: Perm): (i: nat)
    ensures i < 18
  {
    match p
    case Global => 0 case Load => 1 case LoadCap => 2 case MutableLoad => 3 case Store => 4
    case StoreCap => 5 case StoreLocalCap => 6 case Execute => 7 case Executive => 8 case SysReg => 9
    case Seal => 10 case Unseal => 11 case CapInvoke => 12 case CmptId => 13 case Vmem => 14
    case User1 => 15 case User2 => 16 case User3 => 17
  }

  lemma PermOrderComplete(p: Perm)
    ensures PERM_ORDER[PermIndex(p)] == p
  {
  }

  lemma PermNamesNoDash(i: nat)
    requires i < 18
    ensures PERM_NAMES[i] != '-' && PERM_NAMES[i] != NUL
  {
  }

  function PermsText(perms: set<Perm>): (t: string)
    ensures |t| == 18
  {
    seq(18, i requires 0 <= i < 18 => if PERM_ORDER[i] in perms then PERM_NAMES[i] else '-')
  }

  /** The letter of each permission: memory access, … */
  lemma AccessLetters(perms: set<Perm>)
    ensures var t := PermsText(perms);
            && t[0] == (if Global in perms then 'G' else '-') && t[1] == (if Load in perms then 'r' else '-')
            && t[2] == (if LoadCap in perms then 'R' else '-') && t[3] == (if MutableLoad in perms then 'M' else '-')
            && t[4] == (if Store in perms then 'w' else '-') && t[5] == (if StoreCap in perms then 'W' else '-')
  {
  }

  /** … execution and sealing, … */
  lemma ControlLetters(perms: set<Perm>)
    ensures var t := PermsText(perms);
            && t[6] == (if StoreLocalCap in perms then 'L' else '-') && t[7] == (if Execute in perms then 'x' else '-')
            && t[8] == (if Executive in perms then 'E' else '-') && t[9] == (if SysReg in perms then 'S' else '-')
            && t[10] == (if Seal in perms then 's' else '-') && t[11] == (if Unseal in perms then 'u' else '-')
  {
  }

  /** … and the others. */
  lemma OtherLetters(perms: set<Perm>)
    ensures var t := PermsText(perms);
            && t[12] == (if CapInvoke in perms then 'I' else '-') && t[13] == (if CmptId in perms then 'C' else '-')
            && t[14] == (if Vmem in perms then 'V' else '-') && t[15] == (if User1 in perms then '1' else '-')
            && t[16] == (if User2 in perms then '2' else '-') && t[17] == (if User3 in perms then '3' else '-')
  {
  }

  function SealText(otype: nat): string {
    if otype == UNSEALED then "none"
    else if otype == RB then "rb"
    else if otype == LPB then "lpb"
    else if otype == LB then "lb"
    else Pad(Numeral(otype, 16), 4, false, '0')
  }

  /** The reserved object types have names, the others four digits. */
  lemma SealWords(otype: nat)
    ensures SealText(0) == "none" && SealText(1) == "rb" && SealText(2) == "lpb" && SealText(3) == "lb"
    ensures 4 <= otype <= MAX_OTYPE ==> |SealText(otype)| == 4 && Value(SealText(otype), 16) == otype
  {
    if 4 <= otype <= MAX_OTYPE {
      HexSeal(otype);
    }
  }

  function SignedDecimal(v: int): string {
    (if v < 0 then "-" else "") + Numeral(Abs(v), 10)
  }

  /** What the printed form shows. */
  datatype CapInfo = CapInfo(address: nat, tag: bool, base: nat, limit: nat, perms: set<Perm>,
                             otype: nat, offset: int, length: nat)
  {
    predicate Valid() {
      && address < U64 && base < U64 && limit < U64 && length < U64
      && otype <= MAX_OTYPE && -(U64 / 2) <= offset < U64 / 2
    }
  }

  function Head(i: CapInfo): string {
    Hex16(i.address) + " " + TagText(i.tag) + " [" + Hex16(i.base) + ":" + Hex16(i.limit) + ") "
    + PermsText(i.perms) + " " + Pad(SealText(i.otype), 4, true, ' ') + " "
  }

  function CapLine(i: CapInfo): string {
    Head(i) + SignedDecimal(i.offset) + " of " + Numeral(i.length, 10)
  }

  function Offset(cap: Cap): int { Signed((cap.address - cap.base) % U64, U64) }

  /** `cap_to_str` takes the plain length … */
  function PlainInfo(cap: Cap): CapInfo {
    CapInfo(cap.address % U64, cap.tag, cap.base, (cap.base + cap.length) % U64, cap.perms, cap.otype,
            Offset(cap), cap.length)
  }

  /** … and `%+#p` the length that is zero for NULL. */
  function ZeroInfo(cap: Cap): CapInfo {
    CapInfo(cap.address % U64, cap.tag, cap.base, cap.Limit(), cap.perms, cap.otype,
            Offset(cap), cap.LengthZero())
  }

  lemma InfoValid(cap: Cap)
    requires cap.Valid()
    ensures PlainInfo(cap).Valid() && ZeroInfo(cap).Valid()
    ensures cap.tag || !cap.IsNull() ==> PlainInfo(cap) == ZeroInfo(cap)
  {
  }

  /** What both show, in terms of the capability itself. */
  lemma InfoMeans(cap: Cap)
    requires cap.Valid()
    ensures var i, j := PlainInfo(cap), ZeroInfo(cap);
            && i.address == j.address == cap.address && i.tag == j.tag == cap.tag && i.base == j.base == cap.base
            && i.perms == j.perms == cap.perms && i.otype == j.otype == cap.otype && i.offset == j.offset
            && (cap.base + i.offset - cap.address) % 0x1_0000_0000_0000_0000 == 0
            && i.length == cap.length && j.length == (if cap.address == 0 && !cap.tag then 0 else cap.length)
            && (cap.base + i.length - i.limit) % 0x1_0000_0000_0000_0000 == 0
            && (cap.base + j.length - j.limit) % 0x1_0000_0000_0000_0000 == 0
  {
    var d := cap.address - cap.base;
    assert d == (d / U64) * U64 + d % U64;
  }

  // ---------------------------------------------------------------- Reading the text back

  ghost function ReadPerms(t: string): set<Perm>
    requires |t| == 18
  {
    set p: Perm | t[PermIndex(p)] != '-'
  }

  function ReadSeal(t: string): nat {
    var s := TrimRight(t);
    if s == "none" then UNSEALED
    else if s == "rb" then RB
    else if s == "lpb" then LPB
    else if s == "lb" then LB
    else Value(s, 16)
  }

  /** Length of the prefix before the first space. */
  function WordLength(s: string): (k: nat)
    ensures k <= |s|
  {
    if s == [] || s[0] == ' ' then 0 else 1 + WordLength(s[1..])
  }

  ghost function ReadCap(t: string): CapInfo
    requires |t| >= 79
  {
    var rest := t[79..];
    var k := WordLength(rest);
    CapInfo(Value(t[0..16], 16), t[17] == '1', Value(t[20..36], 16), Value(t[37..53], 16),
            ReadPerms(t[55..73]), ReadSeal(t[74..78]), ReadSigned(rest[..k]),
            Value(if k + 4 <= |rest| then rest[k + 4..] else [], 10))
  }

  lemma Hex16Reads(v: nat)
    requires v < U64
    ensures |Hex16(v)| == 16 && Value(Hex16(v), 16) == v
  {
    var num := Numeral(v, 16);
    NumeralLength64(v, 16);
    NumeralValue(v, 16);
    var k: nat := 16 - |num|;
    assert Hex16(v) == seq(k, _ => '0') + num;
    LeadingZeros(k, num, 16);
  }

  lemma PermsTextReads(perms: set<Perm>)
    ensures ReadPerms(PermsText(perms)) == perms
  {
    forall p: Perm
      ensures p in ReadPerms(PermsText(perms)) <==> p in perms
    {
      PermOrderComplete(p);
      PermNamesNoDash(PermIndex(p));
    }
  }

  lemma HexSeal(otype: nat)
    requires RB < otype <= MAX_OTYPE && otype != LPB && otype != LB
    ensures |SealText(otype)| == 4 && Value(SealText(otype), 16) == otype
    ensures SealText(otype)[0] != 'n' && SealText(otype)[0] != 'r' && SealText(otype)[0] != 'l'
    ensures SealText(otype)[3] != ' '
  {
    var num := Numeral(otype, 16);
    PowBounds();
    NumeralLength(otype, 16, 4);
    NumeralValue(otype, 16);
    var k: nat := 4 - |num|;
    assert SealText(otype) == seq(k, _ => '0') + num;
    LeadingZeros(k, num, 16);
  }

  /** The seal field is always four characters and distinguishes all 15-bit object types. */
  lemma SealTextReads(otype: nat)
    requires otype <= MAX_OTYPE
    ensures 2 <= |SealText(otype)| <= 4 && |Pad(SealText(otype), 4, true, ' ')| == 4
    ensures ReadSeal(Pad(SealText(otype), 4, true, ' ')) == otype
  {
    var s := SealText(otype);
    if otype > LB {
      HexSeal(otype);
    }
    assert s != [] && s[|s| - 1] != ' ';
    TrimRightFill(4 - |s|, s);
  }

  lemma {:induction false} WordLengthAt(s: string, rest: string)
    requires ' ' !in s && rest != [] && rest[0] == ' '
    ensures WordLength(s + rest) == |s|
  {
    if s == [] {
      assert s + rest == rest;
    } else {
      assert (s + rest)[1..] == s[1..] + rest;
      WordLengthAt(s[1..], rest);
    }
  }

  lemma SignedDecimalReads(v: int)
    requires -(U64 / 2) <= v < U64 / 2
    ensures ReadSigned(SignedDecimal(v)) == v && ' ' !in SignedDecimal(v)
    ensures 1 <= |SignedDecimal(v)| <= 20
  {
    var num := Numeral(Abs(v), 10);
    NumeralValue(Abs(v), 10);
    DigitsHave(num, 10);
    NumeralLength19(Abs(v));
    if v < 0 {
      SignTextReads('-', num);
    } else {
      assert SignedDecimal(v) == num;
      assert Trim(num) == num;
    }
  }

  lemma NumeralLength19(v: nat)
    requires v <= U64 / 2
    ensures |Numeral(v, 10)| <= 19
  {
    PowBounds();
    assert Pow(10, 20) == Scale(Pow(10, 19), 10);
    NumeralLength(v, 10, 19);
  }

  lemma Layout(addr: string, tag: string, base: string, limit: string, perms: string, seal: string)
    requires |addr| == |base| == |limit| == 16 && |tag| == 1 && |perms| == 18 && |seal| == 4
    ensures var h := addr + " " + tag + " [" + base + ":" + limit + ") " + perms + " " + seal + " ";
            && |h| == 79 && h[0..16] == addr && h[17] == tag[0] && h[20..36] == base && h[37..53] == limit
            && h[55..73] == perms && h[74..78] == seal
  {
  }

  lemma HeadLayout(i: CapInfo)
    requires i.Valid()
    ensures |Head(i)| == 79
    ensures Head(i)[0..16] == Hex16(i.address)
    ensures Head(i)[17] == '1' <==> i.tag
    ensures Head(i)[20..36] == Hex16(i.base)
    ensures Head(i)[37..53] == Hex16(i.limit)
    ensures Head(i)[55..73] == PermsText(i.perms)
    ensures Head(i)[74..78] == Pad(SealText(i.otype), 4, true, ' ')
  {
    Hex16Reads(i.address);
    Hex16Reads(i.base);
    Hex16Reads(i.limit);
    SealTextReads(i.otype);
    Layout(Hex16(i.address), TagText(i.tag), Hex16(i.base), Hex16(i.limit), PermsText(i.perms),
           Pad(SealText(i.otype), 4, true, ' '));
  }

  lemma HeadReads(i: CapInfo, rest: string)
    requires i.Valid()
    ensures var t := Head(i) + rest;
            && |Head(i)| == 79
            && Value(t[0..16], 16) == i.address && (t[17] == '1' <==> i.tag) && Value(t[20..36], 16) == i.base
            && Value(t[37..53], 16) == i.limit && ReadPerms(t[55..73]) == i.perms && ReadSeal(t[74..78]) == i.otype
  {
    var h := Head(i);
    var t := h + rest;
    HeadLayout(i);
    assert t[0..16] == h[0..16] && t[20..36] == h[20..36] && t[37..53] == h[37..53];
    assert t[55..73] == h[55..73] && t[74..78] == h[74..78] && t[17] == h[17];
    Hex16Reads(i.address);
    Hex16Reads(i.base);
    Hex16Reads(i.limit);
    PermsTextReads(i.perms);
    SealTextReads(i.otype);
  }

  lemma TailReads(off: string, num: string)
    requires ' ' !in off
    ensures var rest := off + " of " + num;
            && WordLength(rest) == |off| && rest[..|off|] == off && rest[|off| + 4..] == num
  {
    assert off + " of " + num == off + (" of " + num);
    WordLengthAt(off, " of " + num);
  }

  /** The text determines every field it shows, and fits the 128-byte buffer with room for the NUL. */
  lemma CapLineReads(i: CapInfo)
    requires i.Valid()
    ensures 79 <= |CapLine(i)| <= 123
    ensures ReadCap(CapLine(i)) == i
  {
    var off, num := SignedDecimal(i.offset), Numeral(i.length, 10);
    var rest := off + " of " + num;
    assert CapLine(i) == Head(i) + rest;
    HeadReads(i, rest);
    assert (Head(i) + rest)[79..] == rest;
    SignedDecimalReads(i.offset);
    TailReads(off, num);
    NumeralLength64(i.length, 10);
    NumeralValue(i.length, 10);
  }

  lemma InfoDeterminesCap(c: Cap, d: Cap)
    requires c.Valid() && d.Valid() && PlainInfo(c) == PlainInfo(d)
    ensures c == d
  {
    hide Offset;
    assert c.address % U64 == c.address && d.address % U64 == d.address;
  }

  lemma CapLineInjective(i: CapInfo, j: CapInfo)
    requires i.Valid() && j.Valid() && CapLine(i) == CapLine(j)
    ensures i == j
  {
    CapLineReads(i);
    CapLineReads(j);
  }

  /** Two capabilities are printed alike by `cap_to_str` only when they are the same capability. */
  lemma CapToStrInjective(c: Cap, d: Cap)
    requires c.Valid() && d.Valid() && CapLine(PlainInfo(c)) == CapLine(PlainInfo(d))
    ensures c == d
  {
    InfoValid(c);
    InfoValid(d);
    CapLineInjective(PlainInfo(c), PlainInfo(d));
    InfoDeterminesCap(c, d);
  }

  // ---------------------------------------------------------------- Pointer conversion, short form

  /** `%#p`: tag and the two 64-bit halves of the encoded capability. */
  function CapHalves(p: Ptr): string {
    TagText(p.cap.tag) + ":" + Hex16(p.high % U64) + ":" + Hex16(p.cap.address % U64)
  }

  lemma HalvesLayout(tag: string, hi: string, lo: string)
    requires |tag| == 1 && |hi| == |lo| == 16
    ensures var h := tag + ":" + hi + ":" + lo;
            |h| == 35 && h[0] == tag[0] && h[2..18] == hi && h[19..35] == lo
  {
  }

  lemma CapHalvesReads(p: Ptr)
    requires p.Valid()
    ensures |CapHalves(p)| == 35
    ensures (CapHalves(p)[0] == '1' <==> p.cap.tag)
    ensures Value(CapHalves(p)[2..18], 16) == p.high && Value(CapHalves(p)[19..35], 16) == p.cap.address
  {
    hide Hex16, Value;
    Hex16Reads(p.high % U64);
    Hex16Reads(p.cap.address % U64);
    HalvesLayout(TagText(p.cap.tag), Hex16(p.high % U64), Hex16(p.cap.address % U64));
  }
}
