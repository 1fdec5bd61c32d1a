/**
 * The string functions of `src/freestanding/src/string.c`. A pointer to characters is seen as the
 * bytes from its address up to the limit of its capability; the limit acts as a terminator.
 */
module Strings {
  import opened Capability

  const NUL: char := '\0'

  /**
   * A pointer: `bytes` is what can be read between the address and the limit, and `high` is the upper
   * half of the encoded capability, whose bit layout is not computed here.
   */
  datatype Ptr = Ptr(cap: Cap, high: nat, bytes: string)
  {
    predicate Valid() {
      && cap.Valid() && high < U64
      && |bytes| == if cap.Deref() then cap.Tail() else 0
    }
  }

  /** The effective string: everything before the first NUL, or everything if there is none. */
  function CString(s: string): string {
    if s == [] || s[0] == NUL then [] else [s[0]] + CString(s[1..])
  }

  /** The effective string is the longest NUL-free prefix. */
  lemma {:induction false} CStringPrefix(s: string, n: nat)
    requires n <= |s| && NUL !in s[..n]
    requires n == |s| || s[n] == NUL
    ensures CString(s) == s[..n]
  {
    if n > 0 {
      assert s[0] == s[..n][0] && s[1..][..n - 1] == s[..n][1..];
      CStringPrefix(s[1..], n - 1);
    }
  }

  lemma {:induction false} CStringIsPrefix(s: string)
    ensures CString(s) <= s && NUL !in CString(s)
    ensures |CString(s)| == |s| || s[|CString(s)|] == NUL
  {
    if s != [] && s[0] != NUL {
      CStringIsPrefix(s[1..]);
    }
  }

  /** `strlen`: NULL and invalid pointers count as the empty string. */
  method StrLen(p: Ptr) returns (k: nat)
    requires p.Valid()
    ensures k == if p.cap.IsNull() then 0 else |CString(p.bytes)|
  {
    if p.cap.IsNull() || !p.cap.Deref() {
      return 0;
    }
    var max := p.cap.Tail();
    k := 0;
    while k < max && p.bytes[k] != NUL
      invariant 0 <= k <= max
      invariant NUL !in p.bytes[..k]
    {
      k := k + 1;
    }
    CStringPrefix(p.bytes, k);
  }

  /**
   * `strcpy` into the bytes `dst[at..lim]`, which do not overlap the source. The result is the index
   * where copying ended, not the start of the destination.
   */
  method StrCpy(dst: array<char>, at: nat, lim: nat, src: string) returns (end: nat)
    requires at <= lim <= dst.Length
    modifies dst
    ensures end == at + Min(|CString(src)|, lim - at)
    ensures dst[..at] == old(dst[..at]) && dst[at..end] == CString(src)[..end - at]
    ensures end < lim ==> dst[end] == NUL && dst[end + 1..] == old(dst[end + 1..])
    ensures end == lim ==> dst[lim..] == old(dst[lim..])
    ensures CString(dst[at..lim]) == CString(src)[..end - at]
    ensures CString(dst[at..lim]) == CString(src) <==> |CString(src)| <= lim - at
  {
    CStringIsPrefix(src);
    end := at;
    var k := 0;
    while end < lim && k < |src| && src[k] != NUL
      invariant 0 <= k <= |src| && end == at + k <= lim
      invariant k <= |CString(src)|
      invariant dst[..at] == old(dst[..at]) && dst[end..] == old(dst[end..])
      invariant dst[at..end] == src[..k]
    {
      assert k < |CString(src)|;
      dst[end] := src[k];
      assert dst[end + 1..] == old(dst[end..])[1..];
      end, k := end + 1, k + 1;
    }
    assert k == |CString(src)| || end == lim by {
      if k < |CString(src)| { assert src[k] == CString(src)[k]; }
    }
    if end < lim {
      dst[end] := NUL;
    }
    ghost var after := dst[at..lim];
    assert after[..k] == dst[at..end] == CString(src)[..k];
    assert NUL !in CString(src)[..k];
    CStringPrefix(after, k);
  }

  /** Unsigned lexicographic order. */
  predicate LexLess(a: string, b: string) {
    b != [] && (a == [] || a[0] < b[0] || (a[0] == b[0] && LexLess(a[1..], b[1..])))
  }

  lemma {:induction false} LexTotal(a: string, b: string)
    ensures a == b || LexLess(a, b) || LexLess(b, a)
    ensures LexLess(a, b) ==> a != b && !LexLess(b, a)
  {
    if a != [] && b != [] {
      LexTotal(a[1..], b[1..]);
      assert a == [a[0]] + a[1..] && b == [b[0]] + b[1..];
    }
  }

  lemma {:induction false} LexTransitive(a: string, b: string, c: string)
    requires LexLess(a, b) && LexLess(b, c)
    ensures LexLess(a, c)
  {
    if a != [] && a[0] == b[0] == c[0] {
      LexTransitive(a[1..], b[1..], c[1..]);
    }
  }

  /** Where two strings first differ decides their order. */
  lemma {:induction false} LexAt(a: string, b: string, k: nat)
    requires k <= |a| && k <= |b| && a[..k] == b[..k]
    ensures k < |a| && k < |b| && a[k] < b[k] ==> LexLess(a, b)
    ensures k == |a| < |b| ==> LexLess(a, b)
    ensures k == |a| == |b| ==> a == b
  {
    if k > 0 {
      assert a[0] == a[..k][0] == b[0];
      assert a[1..][..k - 1] == a[..k][1..] && b[1..][..k - 1] == b[..k][1..];
      LexAt(a[1..], b[1..], k - 1);
      assert a == [a[0]] + a[1..] && b == [b[0]] + b[1..];
    }
  }

  /** Of two strings the one comes first that is a proper prefix, or has the smaller character where they differ. */
  lemma {:induction false} LexMeans(a: string, b: string)
    ensures LexLess(a, b) <==>
            exists k :: 0 <= k <= |a| && k < |b| && a[..k] == b[..k] && (k < |a| ==> a[k] < b[k])
  {
    if LexLess(a, b) {
      var k := FirstDifference(a, b);
      assert a[..k] == b[..k];
    }
    forall k | 0 <= k <= |a| && k < |b| && a[..k] == b[..k] && (k < |a| ==> a[k] < b[k])
      ensures LexLess(a, b)
    {
      LexAt(a, b, k);
    }
  }

  lemma {:induction false} FirstDifference(a: string, b: string) returns (k: nat)
    requires LexLess(a, b)
    ensures k <= |a| && k < |b| && a[..k] == b[..k] && (k < |a| ==> a[k] < b[k])
  {
    k := 0;
    if a != [] && a[0] == b[0] {
      var j := FirstDifference(a[1..], b[1..]);
      k := j + 1;
      assert a[..k] == [a[0]] + a[1..][..j] && b[..k] == [b[0]] + b[1..][..j];
    }
  }

  /** `strcmp`: the sign of the result is the order of the effective strings. */
  method StrCmp(lhs: string, rhs: string) returns (r: int)
    ensures r < 0 <==> LexLess(CString(lhs), CString(rhs))
    ensures r == 0 <==> CString(lhs) == CString(rhs)
    ensures r > 0 <==> LexLess(CString(rhs), CString(lhs))
  {
    ghost var l, t := CString(lhs), CString(rhs);
    CStringIsPrefix(lhs);
    CStringIsPrefix(rhs);
    LexTotal(l, t);
    var k := 0;
    while k < |lhs| && k < |rhs| && lhs[k] == rhs[k] && lhs[k] != NUL
      invariant 0 <= k <= |l| && k <= |t|
      invariant l[..k] == t[..k]
      decreases |lhs| - k
    {
      assert k < |l| && k < |t|;
      k := k + 1;
    }
    LexAt(l, t, k);
    LexAt(t, l, k);
    if k < |lhs| && k < |rhs| {
      r := lhs[k] as int - rhs[k] as int;
    } else if k < |lhs| {
      r := lhs[k] as int;
    } else if k < |rhs| {
      r := -(rhs[k] as int);
    } else {
      r := 0;
    }
  }
}
