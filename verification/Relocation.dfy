/** Start-up: capability relocation and the auxiliary vector (`src/freestanding/src/init.c`). */
module Relocation {
  import opened Capability

  /** A memory slot: a relocation fragment (`cap_rela_t`) before, a capability after. */
  datatype Word = Fragment(address: nat, length: nat, perms: nat) | Pointer(cap: Cap)

  /** `rela_t` */
  datatype Rela = Rela(offset: nat, info: nat, addend: int)

  const R_MORELLO_RELATIVE: nat := 59395
  const PERM_R: nat := 1
  const PERM_RW: nat := 2
  const PERM_RX: nat := 4

  /** The capabilities that all others are derived from. */
  datatype Roots = Roots(rw: Cap, rx: Cap)

  function Slot(r: Rela): nat { r.offset / 16 }

  predicate Relative(r: Rela) { r.info == R_MORELLO_RELATIVE }

  /** The capability that replaces a fragment, step by step as the loop derives it. */
  function Derive(roots: Roots, f: Word, addend: int, clrperm: set<Perm>): Cap
    requires f.Fragment?
  {
    var parent :=
      if f.perms == PERM_R then roots.rx.PermsAnd({Global} + READ_CAP_PERMS)
      else if f.perms == PERM_RW then roots.rw.PermsAnd(RW_PERMS)
      else if f.perms == PERM_RX then roots.rx.PermsAnd(RX_PERMS)
      else roots.rx.PermsAnd({});
    var cap := parent.At(f.address).SetBounds(f.length).Plus(addend);
    if f.perms == PERM_RX then cap.PermsClear(clrperm).SealAs(RB) else cap
  }

  /**
   * Exact bounds, the addend, no more authority than the parent, and sealed exactly if executable. Kinds
   * are numbered 1 (read), 2 (read and write) and 4 (execute); everything else gets no permissions.
   */
  lemma DerivedCap(roots: Roots, f: Word, addend: int, clrperm: set<Perm>)
    requires f.Fragment?
    ensures var c, parent := Derive(roots, f, addend, clrperm), if f.perms == 2 then roots.rw else roots.rx;
            && c.base == f.address && c.length == f.length && c.address == f.address + addend
            && (f.perms == 1 ==> c.perms == parent.perms * {Global, Load, LoadCap, MutableLoad})
            && (f.perms == 2 ==>
                  c.perms == parent.perms * {Global, Load, LoadCap, MutableLoad, Store, StoreCap, StoreLocalCap})
            && (f.perms == 4 ==>
                  c.perms == parent.perms * {Global, Load, LoadCap, MutableLoad, Execute, Executive, SysReg} - clrperm)
            && (f.perms != 1 && f.perms != 2 && f.perms != 4 ==> c.perms == {})
            && c.otype == (if f.perms == 4 then 1 else parent.otype)
            && (c.tag <==> parent.tag && parent.otype == 0
                           && parent.base <= f.address && f.address + f.length <= parent.base + parent.length)
  {
    assert {Global} + READ_CAP_PERMS == {Global, Load, LoadCap, MutableLoad};
    assert RW_PERMS == {Global, Load, LoadCap, MutableLoad, Store, StoreCap, StoreLocalCap};
    assert RX_PERMS == {Global, Load, LoadCap, MutableLoad, Execute, Executive, SysReg};
  }

  /** In the restricted environment no function pointer is executive or has system access. */
  lemma RestrictedPointers(roots: Roots, f: Word, addend: int)
    requires f.Fragment?
    ensures var c := Derive(roots, f, addend, {Executive, SysReg}); Executive !in c.perms && SysReg !in c.perms
  {
    DerivedCap(roots, f, addend, {Executive, SysReg});
  }

  // ---------------------------------------------------------------- The loop

  predicate Distinct(relas: seq<Rela>) {
    forall i, j :: 0 <= i < j < |relas| && Relative(relas[i]) && Relative(relas[j]) ==>
      relas[i].offset != relas[j].offset
  }

  /** Every relative entry names an aligned slot inside the image that holds a fragment. */
  predicate WellFormed(mem: seq<Word>, relas: seq<Rela>) {
    forall i :: 0 <= i < |relas| && Relative(relas[i]) ==>
      var offset := relas[i].offset;
      offset % 16 == 0 && offset < 16 * |mem| && mem[offset / 16].Fragment?
  }

  /** `r` is the relative entry for slot `s`. */
  predicate Names(r: Rela, s: nat) { Relative(r) && Slot(r) == s }

  /** The image after relocation: each slot depends on its own entry only, not on the order of entries. */
  ghost predicate Relocated(roots: Roots, relas: seq<Rela>, clrperm: set<Perm>, before: seq<Word>, after: seq<Word>) {
    && |after| == |before|
    && forall s: nat :: s < |before| ==>
         && (forall r :: r in relas && Names(r, s) ==>
               before[s].Fragment? && after[s] == Pointer(Derive(roots, before[s], r.addend, clrperm)))
         && ((forall r :: r in relas ==> !Names(r, s)) ==> after[s] == before[s])
  }

  /** Such an image is unique … */
  lemma RelocatedUnique(roots: Roots, relas: seq<Rela>, clrperm: set<Perm>, before: seq<Word>,
                        x: seq<Word>, y: seq<Word>)
    requires Relocated(roots, relas, clrperm, before, x) && Relocated(roots, relas, clrperm, before, y)
    ensures x == y
  {
    forall s: nat | s < |before|
      ensures x[s] == y[s]
    {
      if r :| r in relas && Names(r, s) {
        assert x[s] == Pointer(Derive(roots, before[s], r.addend, clrperm));
      }
    }
  }

  /** … and the same for every order of the entries. */
  lemma OrderIrrelevant(roots: Roots, a: seq<Rela>, b: seq<Rela>, clrperm: set<Perm>, before: seq<Word>,
                        x: seq<Word>, y: seq<Word>)
    requires multiset(a) == multiset(b)
    requires Relocated(roots, a, clrperm, before, x) && Relocated(roots, b, clrperm, before, y)
    ensures x == y
  {
    forall r: Rela
      ensures r in a <==> r in b
    {
      assert r in a <==> r in multiset(a);
    }
    assert Relocated(roots, a, clrperm, before, y);
    RelocatedUnique(roots, a, clrperm, before, x, y);
  }

  lemma RelocateNone(roots: Roots, clrperm: set<Perm>, mem: seq<Word>)
    ensures Relocated(roots, [], clrperm, mem, mem)
  {
  }

  lemma DifferentSlots(q: Rela, r: Rela)
    requires q.offset % 16 == 0 && r.offset % 16 == 0 && q.offset != r.offset
    ensures Slot(q) != Slot(r)
  {
  }

  /** Relocation by offsets: which slots change, and what they hold then. */
  lemma RelocatedSpelled(roots: Roots, relas: seq<Rela>, clrperm: set<Perm>, before: seq<Word>, after: seq<Word>)
    requires WellFormed(before, relas) && Relocated(roots, relas, clrperm, before, after)
    ensures |after| == |before|
    ensures forall i, k: nat | 0 <= i < |relas| && relas[i].info == 59395 && relas[i].offset == 16 * k ::
              && k < |before| && before[k].Fragment?
              && after[k] == Pointer(Derive(roots, before[k], relas[i].addend, clrperm))
    ensures forall k: nat | k < |before| && !exists i :: 0 <= i < |relas| && relas[i].info == 59395
                                                        && relas[i].offset == 16 * k ::
              after[k] == before[k]
  {
    forall i, k: nat | 0 <= i < |relas| && relas[i].info == 59395 && relas[i].offset == 16 * k
      ensures k < |before| && before[k].Fragment?
      ensures after[k] == Pointer(Derive(roots, before[k], relas[i].addend, clrperm))
    {
      assert Names(relas[i], k);
    }
    forall k: nat | k < |before| && !exists i :: 0 <= i < |relas| && relas[i].info == 59395 && relas[i].offset == 16 * k
      ensures after[k] == before[k]
    {
      forall r | r in relas
        ensures !Names(r, k)
      {
        var i :| 0 <= i < |relas| && relas[i] == r;
        assert Names(r, k) ==> r.offset == 16 * k;
      }
    }
  }

  /** One more entry, whose slot no earlier entry has touched. */
  lemma RelocateOne(roots: Roots, relas: seq<Rela>, n: nat, clrperm: set<Perm>, before: seq<Word>, image: seq<Word>)
    requires n < |relas| && Distinct(relas) && WellFormed(before, relas)
    requires Relocated(roots, relas[..n], clrperm, before, image)
    ensures !Relative(relas[n]) ==> Relocated(roots, relas[..n + 1], clrperm, before, image)
    ensures Relative(relas[n]) ==>
              var r := relas[n];
              && Slot(r) < |image| && image[Slot(r)] == before[Slot(r)] && image[Slot(r)].Fragment?
              && Relocated(roots, relas[..n + 1], clrperm, before,
                           image[Slot(r) := Pointer(Derive(roots, image[Slot(r)], r.addend, clrperm))])
  {
    var r := relas[n];
    assert relas[..n + 1] == relas[..n] + [r];
    assert forall q :: q in relas[..n + 1] <==> q in relas[..n] || q == r;
    if Relative(r) {
      forall q | q in relas[..n]
        ensures !Names(q, Slot(r))
      {
        var i :| 0 <= i < n && relas[i] == q;
        if Relative(q) {
          DifferentSlots(q, r);
        }
      }
      assert image[Slot(r)] == before[Slot(r)];
    }
  }

  /** `auxv_t`; the vector ends with type 0. */
  datatype Aux = Aux(typ: nat, ptr: Cap)

  const AT_NULL: nat := 0
  const AT_CHERI_EXEC_RW_CAP: nat := 60
  const AT_CHERI_EXEC_RX_CAP: nat := 61
  const AT_ENUM_MAX: nat := 84

  /** The pointer of the last entry of the given type among the first `n`. */
  function LastOf(auxv: seq<Aux>, n: nat, typ: nat, default: Cap): Cap
    requires n <= |auxv|
  {
    if n == 0 then default
    else if auxv[n - 1].typ == typ then auxv[n - 1].ptr
    else LastOf(auxv, n - 1, typ, default)
  }

  /** The last entry of the type decides. */
  lemma {:induction false} LastOfAt(auxv: seq<Aux>, n: nat, typ: nat, default: Cap, i: nat)
    requires i < n <= |auxv| && auxv[i].typ == typ && forall k :: i < k < n ==> auxv[k].typ != typ
    ensures LastOf(auxv, n, typ, default) == auxv[i].ptr
  {
    if i < n - 1 {
      LastOfAt(auxv, n - 1, typ, default, i);
    }
  }

  /** Without an entry of the type nothing changes. */
  lemma {:induction false} LastOfNone(auxv: seq<Aux>, n: nat, typ: nat, default: Cap)
    requires n <= |auxv| && forall k :: 0 <= k < n ==> auxv[k].typ != typ
    ensures LastOf(auxv, n, typ, default) == default
  {
    if n > 0 {
      LastOfNone(auxv, n - 1, typ, default);
    }
  }

  /** The vector is terminated at index `n`. */
  predicate Terminated(auxv: seq<Aux>, n: nat) {
    n < |auxv| && auxv[n].typ == AT_NULL && forall i :: 0 <= i < n ==> auxv[i].typ != AT_NULL
  }

  /** The roots as far as the first `n` entries tell. */
  function RootsAt(auxv: seq<Aux>, n: nat): Roots
    requires n <= |auxv|
  {
    Roots(LastOf(auxv, n, AT_CHERI_EXEC_RW_CAP, NULL), LastOf(auxv, n, AT_CHERI_EXEC_RX_CAP, NULL))
  }

  predicate Complete(roots: Roots) { !roots.rw.IsNull() && !roots.rx.IsNull() }

  /** The first point from `i` on where both roots are known, or the end of the vector. */
  function SearchStop(auxv: seq<Aux>, i: nat, end: nat): (n: nat)
    requires i <= end <= |auxv|
    ensures i <= n <= end && (n < end ==> Complete(RootsAt(auxv, n)))
    ensures forall m :: i <= m < n ==> !Complete(RootsAt(auxv, m))
    decreases end - i
  {
    if i == end || Complete(RootsAt(auxv, i)) then i else SearchStop(auxv, i + 1, end)
  }

  /** The roots that relocation uses. */
  function RootsOf(auxv: seq<Aux>, end: nat): Roots
    requires end <= |auxv|
  {
    RootsAt(auxv, SearchStop(auxv, 0, end))
  }

  /** If each root has one entry, these are the roots, wherever they stand. */
  lemma {:induction false} SingleRoots(auxv: seq<Aux>, end: nat, i: nat, j: nat)
    requires i < end <= |auxv| && j < end
    requires auxv[i].typ == 60 && auxv[j].typ == 61
    requires forall k :: 0 <= k < end ==> (auxv[k].typ == 60 ==> k == i)
    requires forall k :: 0 <= k < end ==> (auxv[k].typ == 61 ==> k == j)
    requires auxv[i].ptr.address != 0 && auxv[j].ptr.address != 0
    ensures RootsOf(auxv, end) == Roots(auxv[i].ptr, auxv[j].ptr)
  {
    var n := SearchStop(auxv, 0, end);
    LastOfSingle(auxv, n, end, AT_CHERI_EXEC_RW_CAP, i);
    LastOfSingle(auxv, n, end, AT_CHERI_EXEC_RX_CAP, j);
    LastOfSingle(auxv, end, end, AT_CHERI_EXEC_RW_CAP, i);
    LastOfSingle(auxv, end, end, AT_CHERI_EXEC_RX_CAP, j);
  }

  lemma {:induction false} LastOfSingle(auxv: seq<Aux>, n: nat, end: nat, typ: nat, i: nat)
    requires n <= end <= |auxv| && i < end && auxv[i].typ == typ
    requires forall k :: 0 <= k < end ==> (auxv[k].typ == typ ==> k == i)
    ensures LastOf(auxv, n, typ, NULL) == if i < n then auxv[i].ptr else NULL
  {
    if n > 0 {
      LastOfSingle(auxv, n - 1, end, typ, i);
    }
  }

  /** The entries among the first `n` whose type is outside of the table. */
  function Stray(auxv: seq<Aux>, n: nat): seq<Aux>
    requires n <= |auxv|
  {
    if n == 0 then []
    else Stray(auxv, n - 1) + if auxv[n - 1].typ < AT_ENUM_MAX then [] else [auxv[n - 1]]
  }

  /** Every store stays in the table exactly if all types are below its size. */
  lemma {:induction false} NoStray(auxv: seq<Aux>, n: nat)
    requires n <= |auxv|
    ensures Stray(auxv, n) == [] <==> forall i :: 0 <= i < n ==> auxv[i].typ < 84
  {
    if n > 0 {
      NoStray(auxv, n - 1);
    }
  }

  /** Looks for the two roots and stops as soon as both have been seen. */
  method FindRoots(auxv: seq<Aux>, ghost end: nat) returns (roots: Roots)
    requires Terminated(auxv, end)
    ensures roots == RootsOf(auxv, end)
  {
    hide LastOf;
    NoRoots(auxv);
    var rw, rx := NULL, NULL;
    var i := 0;
    while auxv[i].typ != AT_NULL
      invariant 0 <= i <= end && Roots(rw, rx) == RootsAt(auxv, i) && !Complete(Roots(rw, rx))
      invariant SearchStop(auxv, 0, end) == SearchStop(auxv, i, end)
      decreases end - i
    {
      NextRoots(auxv, i);
      if auxv[i].typ == AT_CHERI_EXEC_RW_CAP {
        rw := auxv[i].ptr;
      } else if auxv[i].typ == AT_CHERI_EXEC_RX_CAP {
        rx := auxv[i].ptr;
      }
      i := i + 1;
      if !rw.IsNull() && !rx.IsNull() {
        break;
      }
    }
    roots := Roots(rw, rx);
  }

  lemma NoRoots(auxv: seq<Aux>)
    ensures RootsAt(auxv, 0) == Roots(NULL, NULL)
  {
  }

  lemma NextRoots(auxv: seq<Aux>, i: nat)
    requires i < |auxv|
    ensures var r, e := RootsAt(auxv, i), auxv[i];
            RootsAt(auxv, i + 1) == Roots(if e.typ == AT_CHERI_EXEC_RW_CAP then e.ptr else r.rw,
                                          if e.typ == AT_CHERI_EXEC_RX_CAP then e.ptr else r.rx)
  {
  }

  /** `init_morello_relative`: 0 on success, 1 without entries, 2 without both roots. */
  method InitMorelloRelative(mem: array<Word>, relas: seq<Rela>, auxv: seq<Aux>, ghost end: nat, clrperm: set<Perm>)
    returns (r: nat)
    requires Terminated(auxv, end) && Distinct(relas) && WellFormed(mem[..], relas)
    modifies mem
    ensures r == if relas == [] then 1 else if !Complete(RootsOf(auxv, end)) then 2 else 0
    ensures r == 0 ==> Relocated(RootsOf(auxv, end), relas, clrperm, old(mem[..]), mem[..])
    ensures r != 0 ==> mem[..] == old(mem[..])
  {
    hide Derive, WellFormed, Distinct, Relocated, RootsOf;
    ghost var before := mem[..];
    if relas == [] {
      return 1;
    }
    var roots := FindRoots(auxv, end);
    if roots.rw.IsNull() || roots.rx.IsNull() {
      return 2;
    }
    RelocateNone(roots, clrperm, before);
    assert relas[..0] == [];
    var i := 0;
    while i < |relas|
      invariant 0 <= i <= |relas| && Relocated(roots, relas[..i], clrperm, before, mem[..])
    {
      var rela := relas[i];
      RelocateOne(roots, relas, i, clrperm, before, mem[..]);
      if rela.info == R_MORELLO_RELATIVE {
        ghost var image := mem[..];
        var loc := Slot(rela);
        mem[loc] := Pointer(Derive(roots, mem[loc], rela.addend, clrperm));
        assert mem[..] == image[loc := Pointer(Derive(roots, image[loc], rela.addend, clrperm))];
      }
      i := i + 1;
    }
    assert relas[..i] == relas;
    r := 0;
  }

  // ---------------------------------------------------------------- The auxiliary vector

  class Runtime {
    /** `__auxv`, indexed by type; unset entries are NULL. */
    const table: array<Cap>

    constructor ()
      ensures table.Length == AT_ENUM_MAX && fresh(table)
      ensures forall id :: 0 <= id < AT_ENUM_MAX ==> table[id] == NULL
    {
      table := new Cap[AT_ENUM_MAX](_ => NULL);
    }

    /**
     * `init`: relocates, then fills the table unless relocation failed. The code stores without looking at
     * the size of the table, so `stray` collects the entries that it stores where the table has no place.
     */
    method Init(mem: array<Word>, relas: seq<Rela>, auxv: seq<Aux>, ghost end: nat, restricted: bool)
      returns (r: nat, stray: seq<Aux>)
      requires table.Length == AT_ENUM_MAX && Terminated(auxv, end) && Distinct(relas) && WellFormed(mem[..], relas)
      modifies mem, table
      ensures r == if relas == [] then 1 else if !Complete(RootsOf(auxv, end)) then 2 else 0
      ensures r == 0 ==>
                var clrperm := if restricted then {Executive, SysReg} else {};
                Relocated(RootsOf(auxv, end), relas, clrperm, old(mem[..]), mem[..])
      ensures r == 0 ==> forall id: nat ::
                GetAuxPtr(id) == if id < AT_ENUM_MAX then LastOf(auxv, end, id, old(GetAuxPtr(id))) else NULL
      ensures r == 0 ==> stray == Stray(auxv, end)
      ensures r != 0 ==> mem[..] == old(mem[..]) && table[..] == old(table[..]) && stray == []
    {
      var clrperm := if restricted then {Executive, SysReg} else {};
      stray := [];
      r := InitMorelloRelative(mem, relas, auxv, end, clrperm);
      if r != 0 {
        return;
      }
      hide Relocated, RootsOf;
      var i := 0;
      while auxv[i].typ != AT_NULL
        invariant 0 <= i <= end
        invariant forall id :: 0 <= id < AT_ENUM_MAX ==> table[id] == LastOf(auxv, i, id, old(table[id]))
        invariant Relocated(RootsOf(auxv, end), relas, clrperm, old(mem[..]), mem[..])
        invariant stray == Stray(auxv, i)
        decreases end - i
      {
        if auxv[i].typ < AT_ENUM_MAX {
          table[auxv[i].typ] := auxv[i].ptr;
        } else {
          stray := stray + [auxv[i]];
        }
        i := i + 1;
      }
    }

    /** `getauxptr`, for any number. */
    function GetAuxPtr(id: nat): Cap
      requires table.Length == AT_ENUM_MAX
      reads table
    {
      if id < AT_ENUM_MAX then table[id] else NULL
    }
  }
}
