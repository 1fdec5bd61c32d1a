/** The message loop of `encrypt_message` in `src/compartments/privdata.c`. */
module Encrypt {
  import opened Capability

  /** A 32-bit word as its four bytes in memory order. */
  type Word = w: seq<bv8> | |w| == 4 witness [0, 0, 0, 0]

  function Mix(a: bv8, b: bv8): bv8 { a ^ b }

  lemma MixTwice(a: bv8, k: bv8)
    ensures Mix(Mix(a, k), k) == a
  {
  }

  /** Byte `i` of the key stream: the key's bytes over and over. */
  function KeyByte(key: Word, i: nat): bv8 { key[i % 4] }

  function CeilDiv4(n: nat): nat { (n + 3) / 4 }

  /** How many words are processed when `s` source bytes and `d` destination bytes are in bounds. */
  function WordCount(len: nat, s: nat, d: nat): nat {
    if s == 0 || d == 0 then 0 else Min(CeilDiv4(len), Min(CeilDiv4(s) - 1, CeilDiv4(d) - 1))
  }

  lemma CountMonotone(len: nat, s: nat, d: nat)
    ensures WordCount(len, s, d) <= WordCount(len, d, d)
  {
  }

  /** `n` bytes, not too many, have been processed. */
  predicate Counted(len: nat, s: nat, d: nat, n: nat) {
    && n % 4 == 0 && n <= s && n <= d && n / 4 <= WordCount(len, s, d)
    && (s > 0 && d > 0 ==> n < s && n < d)
  }

  lemma CountedStart(len: nat, s: nat, d: nat)
    ensures Counted(len, s, d, 0)
  {
  }

  /** The loop goes on exactly while fewer words than `WordCount` have been processed. */
  lemma CountedTurn(len: nat, s: nat, d: nat, n: nat)
    requires Counted(len, s, d, n)
    ensures n % 4 == 0 && n <= s && n <= d && (d > 0 ==> n < d)
    ensures s - n > 4 && d - n > 4 && n < len ==> Counted(len, s, d, n + 4)
    ensures !(s - n > 4 && d - n > 4 && n < len) ==> n == 4 * WordCount(len, s, d)
  {
  }

  /** After the last turn the word before was still allowed, and no further one is. */
  lemma CountedLast(len: nat, s: nat, d: nat, n: nat)
    requires Counted(len, s, d, n) && !(s - n > 4 && d - n > 4 && n < len)
    ensures n >= 4 ==> n - 4 < len && s > n && d > n
  {
  }

  /** The bytes of `s` from `at` on, `n` of them, combined with the key stream. */
  function Combined(s: seq<bv8>, at: nat, n: nat, key: Word): (r: seq<bv8>)
    requires at + n <= |s|
    ensures |r| == n
  {
    seq(n, i requires 0 <= i < n => Mix(s[at + i], KeyByte(key, i)))
  }

  /** Combining twice with the same key gives the original bytes. */
  lemma CombinedTwice(s: seq<bv8>, at: nat, n: nat, key: Word)
    requires at + n <= |s|
    ensures Combined(Combined(s, at, n, key), 0, n, key) == s[at..at + n]
  {
    hide KeyByte, Mix;
    var r := Combined(Combined(s, at, n, key), 0, n, key);
    forall i | 0 <= i < n
      ensures r[i] == s[at + i]
    {
      MixTwice(s[at + i], KeyByte(key, i));
    }
  }

  /**
   * The source byte that goes into byte `i` of the result. If source and destination are in one object,
   * that byte may have been overwritten by then: by one of the words before the word of byte `i`.
   */
  function ReadAt(same: bool, out: seq<bv8>, o: nat, source: seq<bv8>, t: nat, i: nat): bv8
    requires t + i < |source| && o + i <= |out|
  {
    if same && o <= t + i < o + i / 4 * 4 then out[t + i] else source[t + i]
  }

  /** `n` bytes from `o` on are the source combined with the key stream; the others are as they were. */
  ghost predicate Mixed(key: Word, before: seq<bv8>, out: seq<bv8>, o: nat, source: seq<bv8>, t: nat,
                        same: bool, n: nat)
  {
    && |out| == |before| && o + n <= |before| && t + n <= |source|
    && (forall i :: 0 <= i < n ==> out[o + i] == Mix(ReadAt(same, out, o, source, t, i), KeyByte(key, i)))
    && (forall x :: 0 <= x < o || o + n <= x < |out| ==> out[x] == before[x])
  }

  /** Unless the destination begins within the part of the source that is processed, nothing is read back. */
  lemma MixedIsCombined(key: Word, before: seq<bv8>, out: seq<bv8>, o: nat, source: seq<bv8>, t: nat,
                        same: bool, n: nat)
    requires Mixed(key, before, out, o, source, t, same, n)
    requires same ==> o <= t || t + n <= o
    ensures out == before[..o] + Combined(source, t, n, key) + before[o + n..]
  {
    hide Mix, KeyByte;
    forall i | 0 <= i < n
      ensures out[o + i] == Combined(source, t, n, key)[i]
    {
      assert i / 4 * 4 <= i;
    }
  }

  /** `*dst = *src ^ key` */
  method XorWord(dst: array<bv8>, o: nat, src: array<bv8>, t: nat, key: Word)
    requires o + 4 <= dst.Length && t + 4 <= src.Length
    modifies dst
    ensures forall i :: 0 <= i < 4 ==> dst[o + i] == Mix(old(src[t + i]), key[i])
    ensures forall x :: 0 <= x < o || o + 4 <= x < dst.Length ==> dst[x] == old(dst[x])
  {
    hide Mix;
    var a, b, c, d := src[t], src[t + 1], src[t + 2], src[t + 3];
    dst[o], dst[o + 1] := Mix(a, key[0]), Mix(b, key[1]);
    dst[o + 2], dst[o + 3] := Mix(c, key[2]), Mix(d, key[3]);
  }

  /** One more word of the result. */
  lemma MixedStep(key: Word, before: seq<bv8>, out: seq<bv8>, next: seq<bv8>, o: nat, source: seq<bv8>, t: nat,
                  same: bool, n: nat)
    requires Mixed(key, before, out, o, source, t, same, n) && n % 4 == 0 && (same ==> before == source)
    requires |next| == |out| && o + n + 4 <= |out| && t + n + 4 <= |source|
    requires forall k :: 0 <= k < 4 ==>
               next[o + n + k] == Mix(if same then out[t + n + k] else source[t + n + k], key[k])
    requires forall x :: 0 <= x < o + n || o + n + 4 <= x < |out| ==> next[x] == out[x]
    ensures Mixed(key, before, next, o, source, t, same, n + 4)
  {
    hide Mix;
    forall i | 0 <= i < n + 4
      ensures next[o + i] == Mix(ReadAt(same, next, o, source, t, i), KeyByte(key, i))
    {
      if i < n {
        assert o + i / 4 * 4 <= o + n;
        assert next[o + i] == out[o + i];
      } else {
        assert i / 4 * 4 == n && KeyByte(key, i) == key[i - n];
        assert next[o + n + (i - n)] == next[o + i];
      }
    }
  }

  /** The destination afterwards: an empty one is unchanged, any other has a NUL behind what was processed. */
  ghost predicate Outcome(key: Word, before: seq<bv8>, after: seq<bv8>, o: nat, olim: nat, source: seq<bv8>, t: nat,
                          same: bool, n: nat)
    requires o <= olim <= |before| && t + n <= |source| && o + n <= olim && (o < olim ==> o + n < olim)
  {
    if o == olim then after == before
    else
      && |after| == |before| && after[o + n] == 0
      && Mixed(key, before, after[o + n := before[o + n]], o, source, t, same, n)
  }

  lemma MixIs(a: bv8, b: bv8)
    ensures Mix(a, b) == a ^ b
  {
  }

  /** What this means for each byte. */
  lemma MixedSpelled(key: Word, before: seq<bv8>, out: seq<bv8>, o: nat, source: seq<bv8>, t: nat, same: bool, n: nat,
                     i: nat)
    requires Mixed(key, before, out, o, source, t, same, n) && i < n
    ensures o + i / 4 * 4 <= o + i && (same && o <= t + i < o + i / 4 * 4 ==> t + i < o + n)
    ensures out[o + i] == (if same && o <= t + i < o + i / 4 * 4 then out[t + i] else source[t + i]) ^ key[i % 4]
  {
    hide Mix;
    MixIs(ReadAt(same, out, o, source, t, i), KeyByte(key, i));
  }

  lemma OutcomeSpelled(key: Word, before: seq<bv8>, after: seq<bv8>, o: nat, olim: nat, source: seq<bv8>, t: nat,
                       same: bool, n: nat)
    requires o <= olim <= |before| && t + n <= |source| && o + n <= olim && (o < olim ==> o + n < olim)
    requires Outcome(key, before, after, o, olim, source, t, same, n)
    ensures |after| == |before|
    ensures forall i :: 0 <= i < n ==>
              after[o + i] == (if same && o <= t + i < o + i / 4 * 4 then after[t + i] else source[t + i]) ^ key[i % 4]
    ensures o < olim ==> after[o + n] == 0
    ensures forall x :: 0 <= x < o || o + n + (if o < olim then 1 else 0) <= x < |after| ==> after[x] == before[x]
  {
    if o < olim {
      var image := after[o + n := before[o + n]];
      assert forall x :: 0 <= x < o || o + n < x < |after| ==> image[x] == before[x];
      hide Mixed;
      forall i | 0 <= i < n
        ensures after[o + i] ==
                (if same && o <= t + i < o + i / 4 * 4 then after[t + i] else source[t + i]) ^ key[i % 4]
      {
        MixedSpelled(key, before, image, o, source, t, same, n, i);
      }
    }
  }

  /** A byte comes out unchanged exactly if its key byte is zero. */
  lemma UnchangedByte(a: bv8, k: bv8)
    ensures a ^ k == a <==> k == 0
  {
  }

  lemma MixedNothing(key: Word, before: seq<bv8>, o: nat, source: seq<bv8>, t: nat, same: bool)
    requires o <= |before| && t <= |source|
    ensures Mixed(key, before, before, o, source, t, same, 0)
  {
  }

  /** One turn of the loop. */
  method MixWord(key: Word, out: array<bv8>, o: nat, text: array<bv8>, t: nat, n: nat,
                 ghost before: seq<bv8>, ghost source: seq<bv8>)
    requires o + n + 4 <= out.Length && t + n + 4 <= text.Length && n % 4 == 0
    requires Mixed(key, before, out[..], o, source, t, out == text, n)
    requires if out == text then before == source else text[..] == source
    modifies out
    ensures Mixed(key, before, out[..], o, source, t, out == text, n + 4)
    ensures out != text ==> text[..] == source
  {
    hide Mix;
    ghost var image := out[..];
    assert |image| == |before| && |source| == text.Length;
    hide Mixed;
    XorWord(out, o + n, text, t + n, key);
    MixedStep(key, before, image, out[..], o, source, t, out == text, n);
  }

  /** The NUL behind the result, if the destination is not empty. */
  method PutNul(key: Word, out: array<bv8>, o: nat, olim: nat, t: nat, n: nat, same: bool,
                ghost before: seq<bv8>, ghost source: seq<bv8>)
    requires o + n <= olim <= out.Length && (o < olim ==> o + n < olim) && t + n <= |source|
    requires Mixed(key, before, out[..], o, source, t, same, n)
    modifies out
    ensures |before| == out.Length && Outcome(key, before, out[..], o, olim, source, t, same, n)
  {
    hide Mix;
    ghost var image := out[..];
    if o + n < olim {
      out[o + n] := 0;
      assert out[..][o + n := before[o + n]] == image;
    }
  }

  /**
   * `encrypt_message` from the bytes `text[t..tlim]` to the bytes `out[o..olim]`, which may overlap. Exactly
   * `WordCount` words are combined with the key, a NUL follows them whenever the destination is not
   * empty, and nothing else changes.
   */
  method EncryptMessage(key: Word, out: array<bv8>, o: nat, olim: nat, text: array<bv8>, t: nat, tlim: nat, len: nat)
    returns (processed: nat)
    requires o <= olim <= out.Length && t <= tlim <= text.Length
    modifies out
    ensures processed == 4 * WordCount(len, tlim - t, olim - o)
    ensures o + processed <= olim && (o < olim ==> o + processed < olim) && t + processed <= tlim
    ensures Outcome(key, old(out[..]), out[..], o, olim, old(text[..]), t, out == text, processed)
    // it stops at the length, or where a word would not leave room for a further byte
    ensures processed >= len || tlim - (t + processed) <= 4 || olim - (o + processed) <= 4
    ensures processed >= 4 ==>
              processed - 4 < len && tlim - (t + processed) > 0 && olim - (o + processed) > 0
    ensures forall i :: 0 <= i < processed ==>
              out[o + i] ==
              (if out == text && o <= t + i < o + i / 4 * 4 then out[t + i] else old(text[t + i])) ^ key[i % 4]
    ensures o < olim ==> out[o + processed] == 0
    ensures forall x :: 0 <= x < o || o + processed + (if o < olim then 1 else 0) <= x < out.Length ==>
              out[x] == old(out[x])
  {
    hide WordCount, Counted, Mixed, Outcome;
    ghost var s, d := tlim - t, olim - o;
    ghost var source, before := text[..], out[..];
    CountedStart(len, s, d);
    MixedNothing(key, before, o, source, t, out == text);
    processed := 0;
    while tlim - (t + processed) > 4 && olim - (o + processed) > 4 && processed < len
      invariant Counted(len, s, d, processed)
      invariant Mixed(key, before, out[..], o, source, t, out == text, processed)
      invariant out != text ==> text[..] == source
      decreases len - processed
    {
      CountedTurn(len, s, d, processed);
      MixWord(key, out, o, text, t, processed, before, source);
      processed := processed + 4;
    }
    CountedTurn(len, s, d, processed);
    CountedLast(len, s, d, processed);
    PutNul(key, out, o, olim, t, processed, out == text, before, source);
    OutcomeSpelled(key, before, out[..], o, olim, source, t, out == text, processed);
  }

  lemma ResultStart(key: Word, before: seq<bv8>, after: seq<bv8>, source: seq<bv8>, same: bool, n: nat)
    requires 0 < |before| && n < |before| && n <= |source|
    requires Outcome(key, before, after, 0, |before|, source, 0, same, n)
    ensures |after| == |before| && after[..n] == Combined(source, 0, n, key)
  {
    hide Combined, Mixed;
    var image := after[n := before[n]];
    MixedIsCombined(key, before, image, 0, source, 0, same, n);
    assert after[..n] == image[..n];
    assert before[..0] == [];
  }

  /** A longer second pass treats the bytes of the first pass alike. */
  lemma FirstPart(first: seq<bv8>, m: nat, n: nat, key: Word)
    requires n <= m <= |first|
    ensures Combined(first, 0, m, key)[..n] == Combined(first[..n], 0, n, key)
  {
    hide Mix, KeyByte;
  }

  /** Encrypting into a buffer and decrypting the buffer in place gives back every byte of the first pass. */
  method EncryptDecrypt(key: Word, out: array<bv8>, text: array<bv8>, len: nat) returns (n: nat)
    requires out != text
    modifies out
    ensures n == 4 * WordCount(len, text.Length, out.Length) && n <= out.Length && n <= text.Length
    ensures out[..n] == text[..n]
  {
    hide Combined, WordCount, Outcome;
    ghost var source, before := text[..], out[..];
    n := EncryptMessage(key, out, 0, out.Length, text, 0, text.Length, len);
    ghost var first := out[..];
    var m := EncryptMessage(key, out, 0, out.Length, out, 0, out.Length, len);
    CountMonotone(len, text.Length, out.Length);
    if out.Length > 0 {
      ResultStart(key, before, first, source, false, n);
      ResultStart(key, first, out[..], first, true, m);
      FirstPart(first, m, n, key);
      CombinedTwice(source, 0, n, key);
      assert out[..n] == out[..][..m][..n];
    }
  }
}
