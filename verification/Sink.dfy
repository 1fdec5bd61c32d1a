/**
 * The output side of the formatter: standard output, or the bounded destination of `sprintf`
 * (`stdout_output`, `buffer_output` and `output_buf_t` in `src/freestanding/src/printf.c`).
 */
module Sink {
  import opened Strings
  import opened Format

  /** The buffer after `text` was written over it from index `at` on. */
  function Written(initial: string, at: nat, text: string): string
    requires at + |text| <= |initial|
  {
    initial[..at] + text + initial[at + |text|..]
  }

  lemma WrittenParts(initial: string, at: nat, text: string)
    requires at + |text| <= |initial|
    ensures var w := Written(initial, at, text);
            && |w| == |initial| && w[..at] == initial[..at] && w[at..at + |text|] == text
            && w[at + |text|..] == initial[at + |text|..]
  {
  }

  /** A C string in the buffer is read back up to its NUL. */
  lemma WrittenCString(initial: string, at: nat, lim: nat, text: string)
    requires at + |text| + 1 <= lim <= |initial| && NUL !in text
    ensures CString(Written(initial, at, text + [NUL])[at..lim]) == text
  {
    var w := Written(initial, at, text + [NUL])[at..lim];
    assert w[..|text|] == text && w[|text|] == NUL;
    CStringPrefix(w, |text|);
  }

  class Output {
    /** Destination of `sprintf`; null stands for standard output. */
    const buffer: array?<char>
    const origin: nat
    const lim: nat
    var dst: nat
    var stream: string

    /** Everything the formatter has offered, whether or not there was room for it. */
    ghost var offered: string
    ghost const initial: string

    ghost function Room(): Room
    {
      if buffer == null || lim < origin then Unlimited else Limited(lim - origin)
    }

    /** How much of the offered text was taken. */
    ghost function Taken(): (n: nat)
      reads this
      ensures n <= |offered|
    {
      Room().Take(|offered|)
    }

    ghost predicate Valid()
      reads this, buffer
    {
      if buffer == null then stream == offered
      else
        && origin <= lim <= buffer.Length == |initial|
        && dst == origin + Taken()
        && buffer[..] == Written(initial, origin, offered[..Taken()])
    }

    constructor Stdout()
      ensures Valid() && buffer == null && offered == "" && Room() == Unlimited
    {
      buffer, origin, lim, dst, stream := null, 0, 0, 0, "";
      offered, initial := "", "";
    }

    constructor Buffer(dst: array<char>, at: nat, lim: nat)
      requires at <= lim <= dst.Length
      ensures Valid() && buffer == dst && origin == at && this.lim == lim
      ensures offered == "" && initial == dst[..] && Room() == Limited(lim - at)
    {
      buffer, origin, this.lim, this.dst, stream := dst, at, lim, at, "";
      offered, initial := "", dst[..];
    }

    /** One call of the sink: takes as much of `data` as fits and reports how much that was. */
    method Emit(data: string) returns (k: nat)
      requires Valid()
      modifies this, buffer
      ensures Valid() && offered == old(offered) + data
      ensures k == Taken() - old(Taken())
    {
      k := 0;
      ghost var had := offered;
      if buffer == null {
        stream := stream + data;
        k := |data|;
        offered := had + data;
      } else {
        offered := had + data[..0];
        assert offered == had;
        while k < |data| && dst < lim
          invariant 0 <= k <= |data| && had <= offered
          invariant offered == had + data[..k] && Valid()
          invariant k == Taken() - old(Taken())
          decreases |data| - k
        {
          assert Taken() == |offered|;
          WriteOne(data[k]);
          assert data[..k + 1] == data[..k] + [data[k]];
          assert had + data[..k] + [data[k]] == had + (data[..k] + [data[k]]);
          k := k + 1;
        }
        assert had + data[..k] <= had + data;
        assert data[..|data|] == data;
        offered := had + data;
        assert offered[..Taken()] == (had + data[..k])[..Taken()];
      }
    }

    method WriteOne(c: char)
      requires Valid() && buffer != null && dst < lim
      modifies this, buffer
      ensures Valid() && offered == old(offered) + [c] && Taken() == old(Taken()) + 1
      ensures dst == old(dst) + 1
    {
      ghost var text := offered[..Taken()];
      assert text == offered;
      buffer[dst] := c;
      dst := dst + 1;
      offered := offered + [c];
      assert offered[..Taken()] == offered == text + [c];
      assert buffer[..] == Written(initial, origin, text + [c]);
    }
  }
}
