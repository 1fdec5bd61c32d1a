/** Compartments of the restricted runtime: descriptors, stacks and IDs (`src/restricted/src/cman.c`). */
module Cman {
  import opened Capability
  import opened SwapSwitch
  import opened OwnStacks
  import opened Restricted

  /** `is_in_restricted` */
  predicate InRestricted(pcc: Cap) { Executive !in pcc.perms }

  /** `get_compartment_id`: the ID, or -1 in executive mode. */
  function CompartmentId(pcc: Cap, cid: Cap): int {
    if InRestricted(pcc) then cid.address else -1
  }

  /** The reported ID is the register's address, and -1 for code with executive permission. */
  lemma ReportedId(pcc: Cap, cid: Cap)
    ensures CompartmentId(pcc, cid) == if Executive in pcc.perms then -1 else cid.address
  {
  }

  /** `get_cmpt_stack`: the aligned upper end of a fresh mapping. */
  function StackTop(mapping: Cap): Cap {
    mapping.At(AlignDown(mapping.base + mapping.length)).PermsAnd(RW_PERMS)
  }

  /** A fresh mapping: `cheri_bounds_set(c0, len)` in `mmap`. */
  predicate Mapping(m: Cap) { m.tag && !m.Sealed() && m.address == m.base && m.length >= 16 }

  lemma StackTopFits(m: Cap)
    requires Mapping(m)
    ensures var s := StackTop(m);
            && StackOf(s) == StackOf(m) && s.address % 16 == 0
            && s.base <= s.address <= s.base + s.length && s.base + s.length - s.address < 16
            && s.perms == m.perms * {Global, Load, LoadCap, MutableLoad, Store, StoreCap, StoreLocalCap}
            && s.tag && !s.Sealed()
  {
    assert RW_PERMS == {Global, Load, LoadCap, MutableLoad, Store, StoreCap, StoreLocalCap};
  }

  class Manager {
    const exec: Cap
    var cid: Cap
    ghost var root: ThunkData
    ghost var descs: seq<ThunkData>

    /** The root has the first ID and the others follow in order; all stacks are apart. */
    ghost predicate Valid()
      reads this
    {
      && cid.address == root.cid.address + |descs| + 1
      && (forall i :: 0 <= i < |descs| ==> descs[i].cid.address == root.cid.address + i + 1)
      && Distinct(Stacks(StackOf(root.sp), Tops(descs)))
    }

    /** `_init_compartments`, which must run in executive mode. */
    constructor Init(switchFn: Cap, auxCid: Cap, mapping: Cap)
      requires Mapping(mapping)
      ensures Valid() && descs == [] && exec == switchFn
      ensures root == ThunkData(NULL, NULL, NULL, StackTop(mapping), auxCid)
    {
      exec := switchFn;
      root, descs := ThunkData(NULL, NULL, NULL, StackTop(mapping), auxCid), [];
      cid := auxCid.Plus(1);
    }

    /** `create_compartment` with a fresh mapping for its stack. */
    method CreateCompartment(target: Cap, mapping: Cap) returns (d: ThunkData)
      requires Valid() && Mapping(mapping)
      requires forall i :: 0 <= i <= |descs| ==> Stacks(StackOf(root.sp), Tops(descs))[i].Disjoint(StackOf(mapping))
      modifies this`cid, this`descs
      ensures Valid() && descs == old(descs) + [d]
      ensures d.exec == exec && d.tp == NULL && d.sp == StackTop(mapping) && d.cid == old(cid)
      ensures d.target.Sealed() && (target.Sealed() ==> d.target == target)
      ensures !target.Sealed() ==> d.target == target.SealAs(RB)
    {
      StackTopFits(mapping);
      d := ThunkData(exec, if target.Sealed() then target else target.SealAs(RB), NULL, StackTop(mapping), cid);
      cid := cid.Plus(1);
      ghost var before := Stacks(StackOf(root.sp), Tops(descs));
      descs := descs + [d];
      assert Stacks(StackOf(root.sp), Tops(descs)) == before + [StackOf(mapping)];
    }

    /** Inside compartment `i` the reported ID is `i + 1` if the root's is 0, and IDs tell compartments apart. */
    lemma IdsAreSequential(pcc: Cap, i: nat, j: nat)
      requires Valid() && i < |descs| && j < |descs| && Executive !in pcc.perms
      ensures CompartmentId(pcc, descs[i].cid) == CompartmentId(pcc, root.cid) + i + 1
      ensures CompartmentId(pcc, descs[i].cid) == CompartmentId(pcc, descs[j].cid) <==> i == j
    {
    }

    /** What has been created is where runs of the switch may start. */
    lemma ReadyToRun(e: Executive)
      requires Valid() && e.Valid() && e.descs == descs
      requires e.estack == [] && e.rcsp == root.sp
      ensures RInv(RConfig(e.Snapshot(), [])) && Distinct(Stacks(StackOf(root.sp), Tops(descs)))
    {
    }
  }
}
