/**
 * Tagged memory and the block operations `memset` and `memcpy` of `src/freestanding/src/string.c`.
 * Memory is a byte array with one tag for every aligned 16-byte granule. Every access goes through a
 * capability, and the preconditions of the accesses are what the hardware checks.
 */
module Memory {
  import opened Capability

  class Memory {
    const bytes: array<bv8>
    const tags: array<bool>

    ghost predicate Valid() {
      bytes.Length == 16 * tags.Length
    }

    /** `n` bytes at `a` may be accessed through `cap`. */
    predicate InReach(cap: Cap, a: int, n: nat, perm: Perm) {
      && cap.tag && !cap.Sealed() && perm in cap.perms
      && cap.base <= a && a + n <= cap.Limit() && cap.Limit() <= bytes.Length
    }

    /** A byte store takes the tag of its granule away. */
    method StoreByte(cap: Cap, a: int, b: bv8)
      requires Valid() && InReach(cap, a, 1, Store)
      modifies bytes, tags
      ensures bytes[..] == old(bytes[..])[a := b] && tags[..] == old(tags[..])[a / 16 := false]
    {
      bytes[a] := b;
      tags[a / 16] := false;
    }

    function LoadByte(cap: Cap, a: int): bv8
      requires InReach(cap, a, 1, Load)
      reads bytes
    {
      bytes[a]
    }

    /** A little-endian 64-bit store. */
    method StoreWord(cap: Cap, a: int, w: bv64)
      requires Valid() && InReach(cap, a, 8, Store) && a % 8 == 0
      modifies bytes, tags
      ensures forall i :: 0 <= i < bytes.Length ==>
                bytes[i] == if a <= i < a + 8 then WordByte(w, i - a) else old(bytes[i])
      ensures tags[..] == old(tags[..])[a / 16 := false]
    {
      hide WordByte;
      bytes[a], bytes[a + 1], bytes[a + 2], bytes[a + 3] :=
        WordByte(w, 0), WordByte(w, 1), WordByte(w, 2), WordByte(w, 3);
      bytes[a + 4], bytes[a + 5], bytes[a + 6], bytes[a + 7] :=
        WordByte(w, 4), WordByte(w, 5), WordByte(w, 6), WordByte(w, 7);
      tags[a / 16] := false;
    }

    /** Moves one capability: sixteen bytes and, if it may be loaded, the tag. */
    method MoveCap(dst: Cap, d: int, src: Cap, s: int)
      requires Valid() && InReach(dst, d, 16, Store) && InReach(src, s, 16, Load)
      requires d % 16 == 0 && s % 16 == 0 && (d == s || d + 16 <= s || s + 16 <= d)
      requires tags[s / 16] && LoadCap in src.perms ==> StoreCap in dst.perms
      modifies bytes, tags
      ensures forall i :: 0 <= i < bytes.Length ==>
                bytes[i] == if d <= i < d + 16 then old(bytes[s + (i - d)]) else old(bytes[i])
      ensures tags[..] == old(tags[..])[d / 16 := old(tags[s / 16]) && LoadCap in src.perms]
    {
      var tag := tags[s / 16] && LoadCap in src.perms;
      forall k | 0 <= k < 16 {
        bytes[d + k] := bytes[s + k];
      }
      tags[d / 16] := tag;
    }
  }

  // ---------------------------------------------------------------- memset

  /** Byte `k` of a 64-bit word, least significant first. */
  function WordByte(w: bv64, k: int): bv8 {
    if k == 0 then (w & 0xff) as bv8
    else if k == 1 then ((w >> 8) & 0xff) as bv8
    else if k == 2 then ((w >> 16) & 0xff) as bv8
    else if k == 3 then ((w >> 24) & 0xff) as bv8
    else if k == 4 then ((w >> 32) & 0xff) as bv8
    else if k == 5 then ((w >> 40) & 0xff) as bv8
    else if k == 6 then ((w >> 48) & 0xff) as bv8
    else ((w >> 56) & 0xff) as bv8
  }

  /** `*x = c` keeps the low byte of the `int`. */
  function LowByte(c: bv32): bv8 { (c & 0xff) as bv8 }

  lemma LowByteMeans(c: bv32)
    ensures LowByte(c) as bv32 == c & 0xff
    ensures c <= 255 ==> LowByte(c) == c as bv8
  {
  }

  /** `uint64_t b = c` extends the sign. */
  function SignExtend(c: bv32): bv64 {
    if c & 0x8000_0000 != 0 then (c as bv64) | 0xffff_ffff_0000_0000 else c as bv64
  }

  /** The word that the 16-byte loop stores twice. */
  function Pattern(c: bv32): bv64 {
    var b := SignExtend(c);
    (b << 56) | (b << 48) | (b << 40) | (b << 32) | (b << 24) | (b << 16) | (b << 8) | b
  }

  lemma SignExtendMeans(c: bv32)
    ensures c < 0x8000_0000 ==> SignExtend(c) == c as bv64
    ensures c >= 0x8000_0000 ==> SignExtend(c) == c as bv64 | 0xffff_ffff_0000_0000
  {
  }

  /** Byte `k` of the stored word combines bytes 0 to `k` of the sign-extended argument. */
  lemma PatternLow(c: bv32)
    ensures var b, w := SignExtend(c), Pattern(c);
            && w & 0xff == b & 0xff
            && (w >> 8) & 0xff == ((b >> 8) | b) & 0xff
            && (w >> 16) & 0xff == ((b >> 16) | (b >> 8) | b) & 0xff
            && (w >> 24) & 0xff == ((b >> 24) | (b >> 16) | (b >> 8) | b) & 0xff
  {
    hide SignExtend;
  }

  lemma PatternHigh(c: bv32)
    ensures var b, w := SignExtend(c), Pattern(c);
            && (w >> 32) & 0xff == ((b >> 32) | (b >> 24) | (b >> 16) | (b >> 8) | b) & 0xff
            && (w >> 40) & 0xff == ((b >> 40) | (b >> 32) | (b >> 24) | (b >> 16) | (b >> 8) | b) & 0xff
            && (w >> 48) & 0xff == ((b >> 48) | (b >> 40) | (b >> 32) | (b >> 24) | (b >> 16) | (b >> 8) | b) & 0xff
            && w >> 56 == ((b >> 56) | (b >> 48) | (b >> 40) | (b >> 32) | (b >> 24) | (b >> 16) | (b >> 8) | b) & 0xff
  {
    hide SignExtend;
  }

  /** No bit above the low byte of `c`, sign extension included, is missing from the low byte. */
  predicate Uniform(c: bv32) {
    var low := c & 0xff;
    && c & !(low | (low << 8) | (low << 16) | (low << 24)) == 0
    && (c & 0x8000_0000 != 0 ==> low == 0xff)
  }

  predicate LowBytes(w: bv64, b: bv8) {
    WordByte(w, 0) == b && WordByte(w, 1) == b && WordByte(w, 2) == b && WordByte(w, 3) == b
  }

  predicate HighBytes(w: bv64, b: bv8) {
    WordByte(w, 4) == b && WordByte(w, 5) == b && WordByte(w, 6) == b && WordByte(w, 7) == b
  }

  lemma UniformGivesLow(c: bv32)
    requires Uniform(c)
    ensures LowBytes(Pattern(c), LowByte(c))
  {
  }

  lemma UniformGivesHigh(c: bv32)
    requires Uniform(c)
    ensures HighBytes(Pattern(c), LowByte(c))
  {
  }

  lemma BytesGiveUniform(c: bv32)
    requires LowBytes(Pattern(c), LowByte(c)) && HighBytes(Pattern(c), LowByte(c))
    ensures Uniform(c)
  {
  }

  lemma AllBytes(w: bv64, b: bv8)
    ensures LowBytes(w, b) && HighBytes(w, b) <==> forall k :: 0 <= k < 8 ==> WordByte(w, k) == b
  {
    hide WordByte;
  }

  /** The stored word repeats the byte exactly for uniform values, … */
  lemma PatternUniform(c: bv32)
    ensures Uniform(c) <==> forall k :: 0 <= k < 8 ==> WordByte(Pattern(c), k) == LowByte(c)
  {
    hide Pattern, LowByte, WordByte, LowBytes, HighBytes, Uniform;
    AllBytes(Pattern(c), LowByte(c));
    if Uniform(c) {
      UniformGivesLow(c);
      UniformGivesHigh(c);
    } else if LowBytes(Pattern(c), LowByte(c)) && HighBytes(Pattern(c), LowByte(c)) {
      BytesGiveUniform(c);
    }
  }

  /** … and every value from 0 to 255 is uniform. */
  lemma BytesAreUniform(c: bv32)
    requires c <= 255
    ensures Uniform(c)
  {
  }

  /** Where the word loop of a fill of `n` bytes at `d` starts and ends; empty for short fills. */
  function WordStart(d: nat, n: nat): nat { if n < 16 then d + n else AlignUp(d) }
  function WordEnd(d: nat, n: nat): nat { if n < 16 then d + n else AlignDown(d + n) }

  lemma Gap(a: int, b: int)
    requires a % 16 == 0 && b % 16 == 0 && a < b + 16
    ensures a <= b
    ensures a < b ==> a + 16 <= b
  {
    assert a == 16 * (a / 16) && b == 16 * (b / 16);
  }

  lemma WordRange(d: nat, n: nat)
    ensures d <= WordStart(d, n) <= WordEnd(d, n) <= d + n
    ensures WordStart(d, n) < WordEnd(d, n) ==>
              WordStart(d, n) % 16 == 0 && WordEnd(d, n) % 16 == 0 && WordStart(d, n) + 16 <= WordEnd(d, n)
  {
    hide AlignDown, AlignUp;
    if n >= 16 {
      Gap(AlignUp(d), AlignDown(d + n));
    }
  }

  /** The byte that the fill leaves at `i`. */
  function FillByte(c: bv32, d: nat, n: nat, i: nat): bv8 {
    if WordStart(d, n) <= i < WordEnd(d, n) then WordByte(Pattern(c), i % 8) else LowByte(c)
  }

  lemma ModOf(i: nat, q: nat, r: nat)
    requires i == 8 * q + r && r < 8
    ensures i % 8 == r
  {
  }

  lemma UniformFill(c: bv32, d: nat, n: nat, i: nat)
    requires Uniform(c)
    ensures FillByte(c, d, n, i) == LowByte(c)
  {
    hide Pattern, WordByte, LowByte, Uniform, WordStart, WordEnd;
    PatternUniform(c);
    assert WordByte(Pattern(c), i % 8) == LowByte(c);
  }

  /** The first eight bytes of the word loop show the whole pattern. */
  lemma FirstWordByte(c: bv32, d: nat, n: nat, k: nat)
    requires WordStart(d, n) < WordEnd(d, n) && k < 8
    ensures d <= WordStart(d, n) + k < d + n
    ensures FillByte(c, d, n, WordStart(d, n) + k) == WordByte(Pattern(c), k)
  {
    hide Pattern, WordByte, LowByte, WordStart, WordEnd;
    WordRange(d, n);
    var q := WordStart(d, n) / 16;
    assert WordStart(d, n) == 16 * q;
    ModOf(WordStart(d, n) + k, 2 * q, k);
  }

  lemma PlainFillIsUniform(c: bv32, d: nat, n: nat)
    requires WordStart(d, n) < WordEnd(d, n)
    requires forall i :: d <= i < d + n ==> FillByte(c, d, n, i) == LowByte(c)
    ensures Uniform(c)
  {
    hide Pattern, WordByte, LowByte, Uniform, WordStart, WordEnd, FillByte;
    forall k | 0 <= k < 8
      ensures WordByte(Pattern(c), k) == LowByte(c)
    {
      FirstWordByte(c, d, n, k);
    }
    PatternUniform(c);
  }

  /** The fill is a plain byte fill exactly if the word loop is empty or the value is uniform. */
  lemma PlainFill(c: bv32, d: nat, n: nat)
    ensures (forall i :: d <= i < d + n ==> FillByte(c, d, n, i) == LowByte(c))
            <==> WordStart(d, n) == WordEnd(d, n) || Uniform(c)
  {
    hide Pattern, WordByte, LowByte, Uniform, WordStart, WordEnd;
    WordRange(d, n);
    if Uniform(c) {
      forall i | d <= i < d + n
        ensures FillByte(c, d, n, i) == LowByte(c)
      {
        UniformFill(c, d, n, i);
      }
    } else if WordStart(d, n) < WordEnd(d, n) {
      if forall i :: d <= i < d + n ==> FillByte(c, d, n, i) == LowByte(c) {
        PlainFillIsUniform(c, d, n);
      }
    }
  }

  /** A plain fill, in terms of the argument. */
  lemma UniformMeans(c: bv32, d: nat, n: nat)
    ensures Uniform(c) ==> forall i :: d <= i < d + n ==> FillByte(c, d, n, i) as bv32 == c & 0xff
    ensures c <= 255 ==> forall i :: d <= i < d + n ==> FillByte(c, d, n, i) == c as bv8
  {
    hide Pattern, LowByte, WordByte, Uniform, FillByte;
    LowByteMeans(c);
    PlainFill(c, d, n);
    if c <= 255 {
      BytesAreUniform(c);
    }
  }

  /** A write to `[d, e)` reaches granule `g`. */
  predicate Touches(d: int, e: int, g: int) { d < e && d < 16 * g + 16 && 16 * g < e }

  /** One byte loop of `memset`. */
  method FillBytes(m: Memory, dst: Cap, from: int, to: int, c: bv32)
    requires m.Valid() && from <= to
    requires forall i :: from <= i < to ==> m.InReach(dst, i, 1, Store)
    modifies m.bytes, m.tags
    ensures forall i :: 0 <= i < m.bytes.Length ==> m.bytes[i] == if from <= i < to then LowByte(c) else old(m.bytes[i])
    ensures forall g :: 0 <= g < m.tags.Length ==> m.tags[g] == (old(m.tags[g]) && !Touches(from, to, g))
  {
    hide LowByte;
    var x := from;
    while x < to
      invariant from <= x <= to
      invariant forall i :: 0 <= i < m.bytes.Length ==>
                m.bytes[i] == if from <= i < x then LowByte(c) else old(m.bytes[i])
      invariant forall g :: 0 <= g < m.tags.Length ==> m.tags[g] == (old(m.tags[g]) && !Touches(from, x, g))
    {
      assert m.InReach(dst, x, 1, Store);
      m.StoreByte(dst, x, LowByte(c));
      x := x + 1;
    }
  }

  /** `x[0] = t; x[1] = t` */
  method StorePair(m: Memory, dst: Cap, x: int, t: bv64)
    requires m.Valid() && m.InReach(dst, x, 16, Store) && x % 16 == 0
    modifies m.bytes, m.tags
    ensures forall i :: 0 <= i < m.bytes.Length ==>
              m.bytes[i] == if x <= i < x + 16 then WordByte(t, i % 8) else old(m.bytes[i])
    ensures m.tags[..] == old(m.tags[..])[x / 16 := false]
  {
    hide WordByte;
    assert x >= 0 && m.InReach(dst, x, 8, Store) && m.InReach(dst, x + 8, 8, Store);
    TwoWords(x);
    hide Memory.InReach;
    m.StoreWord(dst, x, t);
    m.StoreWord(dst, x + 8, t);
    assert (x + 8) / 16 == x / 16;
  }

  /** Where the bytes of a granule lie in its two words. */
  lemma TwoWords(x: nat)
    requires x % 16 == 0
    ensures forall i :: x <= i < x + 16 ==> i % 8 == if i < x + 8 then i - x else i - (x + 8)
  {
    forall i | x <= i < x + 16
      ensures i % 8 == if i < x + 8 then i - x else i - (x + 8)
    {
      InItsWord(x, i);
    }
  }

  lemma InItsWord(x: nat, i: nat)
    requires x % 16 == 0 && x <= i < x + 16
    ensures i % 8 == if i < x + 8 then i - x else i - (x + 8)
  {
    var q := x / 16;
    assert x == 16 * q;
    if i < x + 8 {
      ModOf(i, 2 * q, i - x);
    } else {
      ModOf(i, 2 * q + 1, i - (x + 8));
    }
  }

  /** The word loop of `memset`. */
  method FillWords(m: Memory, dst: Cap, from: int, to: int, t: bv64)
    requires m.Valid() && 0 <= from <= to && from % 16 == 0 && to % 16 == 0
    requires from < to ==> m.InReach(dst, from, to - from, Store)
    modifies m.bytes, m.tags
    ensures forall i :: 0 <= i < m.bytes.Length ==>
              m.bytes[i] == if from <= i < to then WordByte(t, i % 8) else old(m.bytes[i])
    ensures forall g :: 0 <= g < m.tags.Length ==> m.tags[g] == (old(m.tags[g]) && !Touches(from, to, g))
  {
    hide WordByte;
    var x := from;
    while x < to
      invariant from <= x <= to && x % 16 == 0
      invariant forall i :: 0 <= i < m.bytes.Length ==>
                m.bytes[i] == if from <= i < x then WordByte(t, i % 8) else old(m.bytes[i])
      invariant forall g :: 0 <= g < m.tags.Length ==> m.tags[g] == (old(m.tags[g]) && !Touches(from, x, g))
    {
      StorePair(m, dst, x, t);
      x := x + 16;
    }
  }

  /** `memset`: exactly `[dst, dst + min(len, tail))` is written, and every tag there is cleared. */
  method Memset(m: Memory, dst: Cap, c: bv32, len0: nat)
    requires m.Valid() && dst.Limit() <= m.bytes.Length
    requires len0 > 0 && dst.Tail() > 0 ==> m.InReach(dst, dst.address, 1, Store)
    modifies m.bytes, m.tags
    ensures var d, n := dst.address, Min(len0, dst.Tail());
            forall i :: 0 <= i < m.bytes.Length ==>
              m.bytes[i] == if d <= i < d + n then FillByte(c, d, n, i) else old(m.bytes[i])
    ensures var d, n := dst.address, Min(len0, dst.Tail());
            forall g :: 0 <= g < m.tags.Length ==> m.tags[g] == (old(m.tags[g]) && !Touches(d, d + n, g))
    // in terms of the argument alone: which bytes are written, with what, and which tags that clears
    ensures var d, n := dst.address, Min(len0, dst.Tail());
            && (c <= 255 ==> forall i :: d <= i < d + n ==> m.bytes[i] == c as bv8)
            && (Uniform(c) ==> forall i :: d <= i < d + n ==> m.bytes[i] as bv32 == c & 0xff)
            && (forall i :: 0 <= i < m.bytes.Length && !(d <= i < d + n) ==> m.bytes[i] == old(m.bytes[i]))
            && (forall g :: 0 <= g < m.tags.Length ==>
                  m.tags[g] == (old(m.tags[g]) && (n == 0 || d + n <= 16 * g || 16 * g + 16 <= d)))
  {
    hide WordByte, Pattern, LowByte, Uniform;
    if len0 > 0 && dst.Tail() > 0 {
      UniformMeans(c, dst.address, Min(len0, dst.Tail()));
    }
    var max := dst.Tail();
    var len := len0;
    if len > max {
      len := max;
    }
    if len == 0 {
      return;
    }
    var d: nat := dst.address;
    WordRange(d, len);
    var tailEnd := d + len;
    var tail;
    if len < 16 {
      tail := d;
    } else {
      tail := AlignDown(tailEnd);
      var headEnd := AlignUp(d);
      FillBytes(m, dst, d, headEnd, c);
      var t := Pattern(c);
      FillWords(m, dst, headEnd, tail, t);
    }
    FillBytes(m, dst, tail, tailEnd, c);
  }

  // ---------------------------------------------------------------- memcpy

  /** Capabilities are moved as such when both pointers have the same offset in their granules. */
  predicate MovesCaps(d: nat, s: nat, n: nat) { d % 16 == s % 16 && n >= 16 }

  /** Granule `g` lies wholly in `[d, e)`. */
  predicate Covered(d: int, e: int, g: int) { d <= 16 * g && 16 * g + 16 <= e }

  /** The tag of granule `g` after `[s, s + (e - d))` was copied to `[d, e)`. */
  function TagAfter(tags: seq<bool>, d: nat, s: nat, e: nat, caps: bool, mayLoad: bool, g: nat): bool
    requires g < |tags| && d <= e && s + (e - d) <= 16 * |tags| && (caps ==> d % 16 == s % 16)
  {
    if !Touches(d, e, g) then tags[g]
    else if caps && Covered(d, e, g) then
      assert (16 * g - d + s) / 16 < |tags|;
      tags[(16 * g - d + s) / 16] && mayLoad
    else false
  }

  /** The byte at `i` after the same copy. */
  function ByteAfter(bytes: seq<bv8>, d: nat, s: nat, e: nat, i: nat): bv8
    requires i < |bytes| && d <= e && s + (e - d) <= |bytes|
  {
    if d <= i < e then bytes[s + (i - d)] else bytes[i]
  }

  ghost predicate Copied(m: Memory, bytes: seq<bv8>, tags: seq<bool>, d: nat, s: nat, e: nat, caps: bool, mayLoad: bool)
    requires d <= e && s + (e - d) <= |bytes| == 16 * |tags| && (caps ==> d % 16 == s % 16)
    reads m, m.bytes, m.tags
  {
    && m.bytes.Length == |bytes| && m.tags.Length == |tags|
    && (forall i: nat :: i < |bytes| ==> m.bytes[i] == ByteAfter(bytes, d, s, e, i))
    && (forall g: nat :: g < |tags| ==> m.tags[g] == TagAfter(tags, d, s, e, caps, mayLoad, g))
  }

  /** The authority that a copy of `n` bytes needs in a memory whose tags were `tags`. */
  ghost predicate Authorised(m: Memory, dst: Cap, src: Cap, d: nat, s: nat, n: nat, tags: seq<bool>) {
    && m.Valid() && m.InReach(dst, d, n, Store) && m.InReach(src, s, n, Load)
    && (d + n <= s || s + n <= d)
    && (MovesCaps(d, s, n) && LoadCap in src.perms && StoreCap !in dst.perms ==>
          forall g :: 0 <= g < |tags| && Covered(s, s + n, g) ==> !tags[g])
  }

  ghost predicate CopyAllowed(m: Memory, dst: Cap, src: Cap, d: nat, s: nat, n: nat)
    reads m, m.tags
  {
    Authorised(m, dst, src, d, s, n, m.tags[..])
  }

  lemma TagAfterByte(tags: seq<bool>, d: nat, s: nat, x: nat, caps: bool, mayLoad: bool, g: nat)
    requires g < |tags| && d <= x && s + (x + 1 - d) <= 16 * |tags| && (caps ==> d % 16 == s % 16)
    requires caps && x / 16 == g ==> !Covered(d, x + 1, g)
    ensures TagAfter(tags, d, s, x + 1, caps, mayLoad, g) ==
            if g == x / 16 then false else TagAfter(tags, d, s, x, caps, mayLoad, g)
  {
    assert x == 16 * (x / 16) + x % 16;
  }

  lemma TagAfterCap(tags: seq<bool>, d: nat, s: nat, x: nat, mayLoad: bool, g: nat)
    requires g < |tags| && d <= x && s + (x + 16 - d) <= 16 * |tags| && d % 16 == s % 16 && x % 16 == 0
    ensures TagAfter(tags, d, s, x + 16, true, mayLoad, g) ==
            if g == x / 16 then tags[(x - d + s) / 16] && mayLoad else TagAfter(tags, d, s, x, true, mayLoad, g)
  {
    assert x == 16 * (x / 16);
  }

  /** One byte loop of `memcpy`: extends a copy of `[d, x)` to `[d, to)`. */
  method CopyBytes(m: Memory, dst: Cap, src: Cap, d: nat, s: nat, from: nat, to: nat, caps: bool,
                   ghost bytes: seq<bv8>, ghost tags: seq<bool>)
    requires d <= from <= to && |bytes| == 16 * |tags| && s + (to - d) <= |bytes| && (caps ==> d % 16 == s % 16)
    requires m.Valid() && m.InReach(dst, d, to - d, Store) && m.InReach(src, s, to - d, Load)
    requires to <= s || s + (to - d) <= d
    requires Copied(m, bytes, tags, d, s, from, caps, LoadCap in src.perms)
    requires caps ==> forall x :: from <= x < to ==> !Covered(d, x + 1, x / 16)
    modifies m.bytes, m.tags
    ensures Copied(m, bytes, tags, d, s, to, caps, LoadCap in src.perms)
  {
    hide TagAfter;
    var x := from;
    while x < to
      invariant from <= x <= to && Copied(m, bytes, tags, d, s, x, caps, LoadCap in src.perms)
    {
      var b := m.LoadByte(src, s + (x - d));
      assert b == bytes[s + (x - d)];
      m.StoreByte(dst, x, b);
      forall g: nat | g < |tags|
        ensures m.tags[g] == TagAfter(tags, d, s, x + 1, caps, LoadCap in src.perms, g)
      {
        TagAfterByte(tags, d, s, x, caps, LoadCap in src.perms, g);
      }
      x := x + 1;
    }
  }

  /** One turn of the capability loop. */
  method CopyOneCap(m: Memory, dst: Cap, src: Cap, d: nat, s: nat, x: nat, end: nat,
                    ghost bytes: seq<bv8>, ghost tags: seq<bool>)
    requires d <= x && x + 16 <= end && |bytes| == 16 * |tags| && s + (end - d) <= |bytes| && d % 16 == s % 16
    requires x % 16 == 0 && Authorised(m, dst, src, d, s, end - d, tags)
    requires Copied(m, bytes, tags, d, s, x, true, LoadCap in src.perms)
    modifies m.bytes, m.tags
    ensures Copied(m, bytes, tags, d, s, x + 16, true, LoadCap in src.perms)
  {
    hide TagAfter;
    SourceUntouched(tags, d, s, x, end, LoadCap in src.perms);
    m.MoveCap(dst, x, src, s + (x - d));
    forall g: nat | g < |tags|
      ensures m.tags[g] == TagAfter(tags, d, s, x + 16, true, LoadCap in src.perms, g)
    {
      TagAfterCap(tags, d, s, x, LoadCap in src.perms, g);
    }
  }

  /** The capability loop of `memcpy`. */
  method CopyCaps(m: Memory, dst: Cap, src: Cap, d: nat, s: nat, from: nat, to: nat, end: nat,
                  ghost bytes: seq<bv8>, ghost tags: seq<bool>)
    requires d <= from <= to <= end && |bytes| == 16 * |tags| && s + (end - d) <= |bytes| && d % 16 == s % 16
    requires from % 16 == 0 && to % 16 == 0 && Authorised(m, dst, src, d, s, end - d, tags)
    requires Copied(m, bytes, tags, d, s, from, true, LoadCap in src.perms)
    modifies m.bytes, m.tags
    ensures Copied(m, bytes, tags, d, s, to, true, LoadCap in src.perms)
  {
    hide TagAfter, Copied, Authorised;
    var x := from;
    while x < to
      invariant from <= x <= to && x % 16 == 0 && Copied(m, bytes, tags, d, s, x, true, LoadCap in src.perms)
    {
      Gap(x, to);
      CopyOneCap(m, dst, src, d, s, x, end, bytes, tags);
      x := x + 16;
    }
  }

  /** The granule to be moved next is aligned and still carries its original tag. */
  lemma SourceUntouched(tags: seq<bool>, d: nat, s: nat, x: nat, end: nat, mayLoad: bool)
    requires d <= x && x + 16 <= end && s + (end - d) <= 16 * |tags| && d % 16 == s % 16 && x % 16 == 0
    requires end <= s || s + (end - d) <= d
    ensures var y := s + (x - d);
            && y % 16 == 0 && y / 16 < |tags| && Covered(s, s + (end - d), y / 16)
            && TagAfter(tags, d, s, x, true, mayLoad, y / 16) == tags[y / 16]
  {
    var y := s + (x - d);
    assert y % 16 == 0;
    assert y == 16 * (y / 16);
  }

  lemma HeadIncomplete(d: nat, h: nat, x: nat)
    requires h % 16 == 0 && h - 16 < d <= x < h
    ensures !Covered(d, x + 1, x / 16)
  {
    assert h == 16 * (h / 16) && x == 16 * (x / 16) + x % 16;
  }

  lemma TailIncomplete(d: nat, t: nat, x: nat)
    requires t % 16 == 0 && t <= x < t + 15
    ensures !Covered(d, x + 1, x / 16)
  {
    assert t == 16 * (t / 16) && x == 16 * (x / 16) + x % 16;
  }

  lemma SameOffset(d: nat, s: nat, a: nat)
    requires d % 16 == s % 16 && a % 16 == 0
    ensures (d + (a - s)) % 16 == 0
  {
  }

  /** Head and tail loops never complete a granule, and the capability loop starts and ends aligned. */
  lemma CopyPhases(d: nat, s: nat, n: nat)
    requires MovesCaps(d, s, n)
    ensures var h, t := d + (AlignUp(s) - s), d + (AlignDown(s + n) - s);
            && d <= h <= t <= d + n && h % 16 == 0 && t % 16 == 0
            && (forall x: nat :: d <= x < h ==> !Covered(d, x + 1, x / 16))
            && (forall x: nat :: t <= x < d + n ==> !Covered(d, x + 1, x / 16))
  {
    var h, t := d + (AlignUp(s) - s), d + (AlignDown(s + n) - s);
    SameOffset(d, s, AlignUp(s));
    SameOffset(d, s, AlignDown(s + n));
    assert h - 16 < d && d + n < t + 16;
    hide AlignUp, AlignDown;
    Gap(h, t);
    hide Covered;
    forall x: nat | d <= x < h
      ensures !Covered(d, x + 1, x / 16)
    {
      HeadIncomplete(d, h, x);
    }
    forall x: nat | t <= x < d + n
      ensures !Covered(d, x + 1, x / 16)
    {
      TailIncomplete(d, t, x);
    }
  }

  lemma NothingCopied(m: Memory, d: nat, s: nat, caps: bool, mayLoad: bool)
    requires m.Valid() && s <= m.bytes.Length && (caps ==> d % 16 == s % 16)
    ensures Copied(m, m.bytes[..], m.tags[..], d, s, d, caps, mayLoad)
  {
  }

  /**
   * `memcpy` of disjoint ranges: with the length clamped to both tails, the destination holds the
   * source bytes, whole granules the source tags when capabilities are moved, and nothing else changes.
   */
  method Memcpy(m: Memory, dst: Cap, src: Cap, len0: nat)
    requires m.Valid()
    requires var n := Min(Min(len0, dst.Tail()), src.Tail());
             n > 0 ==> CopyAllowed(m, dst, src, dst.address, src.address, n)
    modifies m.bytes, m.tags
    ensures var n := Min(Min(len0, dst.Tail()), src.Tail());
            if n == 0 then m.bytes[..] == old(m.bytes[..]) && m.tags[..] == old(m.tags[..])
            else Copied(m, old(m.bytes[..]), old(m.tags[..]), dst.address, src.address, dst.address + n,
                        dst.address % 16 == src.address % 16 && n >= 16, LoadCap in src.perms)
  {
    hide Copied, TagAfter, ByteAfter, AlignUp, AlignDown, Covered;
    var len := len0;
    if len > dst.Tail() {
      len := dst.Tail();
    }
    if len > src.Tail() {
      len := src.Tail();
    }
    if len == 0 {
      return;
    }
    var d: nat, s: nat := dst.address, src.address;
    ghost var bytes, tags := m.bytes[..], m.tags[..];
    NothingCopied(m, d, s, MovesCaps(d, s, len), LoadCap in src.perms);
    var misaligned := d % 16 != s % 16;
    if misaligned || len < 16 {
      CopyBytes(m, dst, src, d, s, d, d + len, false, bytes, tags);
    } else {
      var headEnd := d + (AlignUp(s) - s);
      var tail := d + (AlignDown(s + len) - s);
      CopyPhases(d, s, len);
      CopyBytes(m, dst, src, d, s, d, headEnd, true, bytes, tags);
      CopyCaps(m, dst, src, d, s, headEnd, tail, d + len, bytes, tags);
      CopyBytes(m, dst, src, d, s, tail, d + len, true, bytes, tags);
    }
  }

  /** What a copy is, byte by byte and granule by granule. */
  lemma CopiedSpelled(m: Memory, bytes: seq<bv8>, tags: seq<bool>, d: nat, s: nat, e: nat, caps: bool, mayLoad: bool)
    requires d < e && s + (e - d) <= |bytes| == 16 * |tags| && e <= |bytes| && (caps ==> d % 16 == s % 16)
    requires Copied(m, bytes, tags, d, s, e, caps, mayLoad)
    ensures m.bytes.Length == |bytes| && m.tags.Length == |tags|
    ensures forall i | 0 <= i < |bytes| && !(d <= i < e) :: m.bytes[i] == bytes[i]
    ensures forall i | d <= i < e :: m.bytes[i] == bytes[s + (i - d)]
    ensures forall g | 0 <= g < |tags| && (e <= 16 * g || 16 * g + 16 <= d) :: m.tags[g] == tags[g]
    ensures forall g | 0 <= g < |tags| && d < 16 * g + 16 && 16 * g < e && !(caps && d <= 16 * g && 16 * g + 16 <= e) ::
              !m.tags[g]
    ensures forall g, h | 0 <= g < |tags| && 0 <= h < |tags| && 16 * h - s == 16 * g - d
                          && caps && d <= 16 * g && 16 * g + 16 <= e ::
              m.tags[g] == (tags[h] && mayLoad)
  {
    forall g, h | 0 <= g < |tags| && 0 <= h < |tags| && 16 * h - s == 16 * g - d
                  && caps && d <= 16 * g && 16 * g + 16 <= e
      ensures m.tags[g] == (tags[h] && mayLoad)
    {
      assert (16 * g - d + s) / 16 == h;
    }
  }

  /**
   * A copy forges no capability: wherever a tag is set afterwards, it was set before, or the granule
   * holds an exact copy of a granule that carried a tag.
   */
  lemma NoForgedTags(m: Memory, bytes: seq<bv8>, tags: seq<bool>, d: nat, s: nat, e: nat, caps: bool,
                     mayLoad: bool, g: nat)
    requires d <= e && s + (e - d) <= |bytes| == 16 * |tags| && (caps ==> d % 16 == s % 16) && g < |tags|
    requires Copied(m, bytes, tags, d, s, e, caps, mayLoad) && m.tags[g]
    ensures exists h: nat :: h < |tags| && tags[h] && m.bytes[16 * g..16 * g + 16] == bytes[16 * h..16 * h + 16]
  {
    var h := if Touches(d, e, g) then (16 * g - d + s) / 16 else g;
    if Touches(d, e, g) {
      assert 16 * h == 16 * g - d + s;
    }
    var x, y := m.bytes[16 * g..16 * g + 16], bytes[16 * h..16 * h + 16];
    forall k | 0 <= k < 16
      ensures x[k] == y[k]
    {
      assert m.bytes[16 * g + k] == ByteAfter(bytes, d, s, e, 16 * g + k);
    }
    assert x == y;
  }
}
