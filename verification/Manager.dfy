/** Creation of compartments (`create_cmpt` and its helpers in `src/compartments/src/manager.c`). */
module Manager {
  import opened Capability
  import SwapSwitch

  datatype Option<+T> = None | Some(value: T)

  /** Why `create_cmpt` returned NULL. */
  datatype Errno = EFAULT | ENOMEM

  datatype Result<+T> = Ok(value: T) | Err(error: Errno)

  /** `cmpt_flags_t` */
  datatype Flags = Flags(pccSystemReg: bool, stackStoreLocal: bool, stackMutableLoad: bool)

  /** `cmpt_impl_t`: what the trampoline reads next to its code. */
  datatype Impl = Impl(cid: Cap, target: Cap, entry: Cap, data: Cap, exit: Cap)

  /** `cmpt_data_t`: the stack pointer that is swapped, and the caller's compartment ID. */
  datatype Data = Data(stack: Cap, cid: Cap)

  const RWI_PERMS: set<Perm> := RW_PERMS + {CapInvoke}
  const RXI_PERMS: set<Perm> := RX_PERMS + {CapInvoke}

  /** Offsets of the two entry points in the relocated trampoline, and of the data behind it. */
  const START_OFFSET: nat := 12 * 4
  const END_OFFSET: nat := 71 * 4

  /** `_bsp_seal_cap`: the compartment ID, kept away from the reserved types and cut to 15 bits. */
  function OtypeOf(id: int): nat {
    (if id < 4 then 4 else id) % 0x8000
  }

  /** `cheri_seal` */
  function SealWith(cap: Cap, key: Cap): Cap {
    cap.(otype := if key.address < 0 then 0 else key.address,
         tag := cap.tag && !cap.Sealed() && key.tag && !key.Sealed() && Seal in key.perms
                && key.base <= key.address < key.base + key.length)
  }

  function BspSeal(sealer: Cap, cap: Cap, cid: Cap): Cap {
    if CapInvoke in cap.perms && cid.tag && CmptId in cid.perms
    then SealWith(cap, sealer.At(OtypeOf(cid.address)))
    else cap.Untagged()
  }

  /** `cheri_sentry_create` */
  function Sentry(cap: Cap): Cap { cap.SealAs(RB) }

  predicate Within(cap: Cap, key: Cap) {
    && key.tag && !key.Sealed() && cap.perms <= key.perms
    && key.base <= cap.base && cap.base + cap.length <= key.base + key.length
  }

  /** `reseal_and_remove_perms`: rebuilt from the sentry itself or, if it is sealed, from PCC. */
  function Reseal(sentry: Cap, pcc: Cap, perms: set<Perm>): Cap {
    var key := if sentry.Sealed() then pcc else sentry;
    var reduced := sentry.PermsClear(perms).Unsealed();
    Sentry(reduced.(tag := Within(reduced, key)))
  }

  /** The branch-to-sealed-pair instruction accepts this pair. */
  predicate BrsOk(code: Cap, data: Cap) {
    && code.tag && data.tag && code.otype == data.otype && code.otype > LB
    && CapInvoke in code.perms && CapInvoke in data.perms
    && Execute in code.perms && Execute !in data.perms
  }

  function Target(target: Cap, pcc: Cap, flags: Option<Flags>): Cap {
    var t := if flags.Some? && !flags.value.pccSystemReg then Reseal(target, pcc, {SysReg}) else target;
    if t.Sealed() then t else Sentry(t)
  }

  function StackFor(stack: Cap, flags: Option<Flags>): Cap {
    var s := if flags.Some? && !flags.value.stackStoreLocal then stack.PermsClear({StoreLocalCap}) else stack;
    if flags.Some? && !flags.value.stackMutableLoad then s.PermsClear({MutableLoad}) else s
  }

  /** Flags only take authority away, and what the trampoline branches to is always sealed. */
  lemma FlagsReduce(target: Cap, pcc: Cap, stack: Cap, flags: Option<Flags>)
    ensures var s, t := StackFor(stack, flags), Target(target, pcc, flags);
            && s.(perms := stack.perms) == stack && s.perms <= stack.perms && t.Sealed() && t.perms <= target.perms
            && (StoreLocalCap in s.perms <==>
                  StoreLocalCap in stack.perms && (flags.None? || flags.value.stackStoreLocal))
            && (MutableLoad in s.perms <==> MutableLoad in stack.perms && (flags.None? || flags.value.stackMutableLoad))
            && (SysReg in t.perms <==> SysReg in target.perms && (flags.None? || flags.value.pccSystemReg))
  {
  }

  /**
   * What the trampoline branches to is the given target: the same memory and address, with the permission
   * taken away that the flags exclude, and sealed. It is valid if the given one was; if a sealed target has
   * to be rebuilt, exactly if PCC covers it.
   */
  lemma TargetMeans(target: Cap, pcc: Cap, flags: Option<Flags>)
    ensures var t, reseal := Target(target, pcc, flags), flags.Some? && !flags.value.pccSystemReg;
            && t.base == target.base && t.length == target.length && t.address == target.address
            && t.perms == (if reseal then target.perms - {SysReg} else target.perms)
            && t.otype == (if target.otype != 0 && !reseal then target.otype else 1)
            && (!reseal ==> t.tag == target.tag)
            && (reseal && target.otype == 0 ==> t.tag == target.tag)
            && (reseal && target.otype != 0 ==>
                  (t.tag <==>
                    && pcc.tag && pcc.otype == 0 && target.perms - {SysReg} <= pcc.perms
                    && pcc.base <= target.base && target.base + target.length <= pcc.base + pcc.length))
  {
  }

  /** What a compartment with the given ID, memory and target looks like. */
  function MakeImpl(sealer: Cap, cid: Cap, target: Cap, code: Cap, data: Cap): Impl {
    var id := Sentry(cid);
    Impl(id, target,
         BspSeal(sealer, code.Plus(START_OFFSET + 1).PermsAnd(RXI_PERMS), id),
         BspSeal(sealer, data.PermsAnd(RWI_PERMS), id),
         BspSeal(sealer, code.Plus(END_OFFSET + 1).PermsAnd(RXI_PERMS), id))
  }

  /** The parts of a compartment: where the sealed pointers point, what they permit, and their type. */
  lemma PartsMean(sealer: Cap, cid: Cap, target: Cap, code: Cap, data: Cap)
    requires Ready(sealer, cid) && CodeMemory(code) && DataMemory(data)
    ensures var i := MakeImpl(sealer, cid, target, code, data);
            var typ, rxi := if cid.address < 4 then 4 else cid.address % 0x8000,
                {Global, Load, LoadCap, MutableLoad, Execute, Executive, SysReg, CapInvoke};
            && i.cid == cid.(otype := 1) && i.target == target
            && i.entry == code.(address := code.address + 12 * 4 + 1, perms := code.perms * rxi, otype := typ)
            && i.exit == code.(address := code.address + 71 * 4 + 1, perms := code.perms * rxi, otype := typ)
            && i.data == data.(perms := i.data.perms, otype := typ)
            && i.data.perms ==
               data.perms * {Global, Load, LoadCap, MutableLoad, Store, StoreCap, StoreLocalCap, CapInvoke}
  {
    assert RXI_PERMS == {Global, Load, LoadCap, MutableLoad, Execute, Executive, SysReg, CapInvoke};
    assert RWI_PERMS == {Global, Load, LoadCap, MutableLoad, Store, StoreCap, StoreLocalCap, CapInvoke};
  }

  /** Memory as the kernel hands it out for trampoline code and for the data record. */
  predicate CodeMemory(code: Cap) { code.tag && !code.Sealed() && {CapInvoke, Execute} <= code.perms }
  predicate DataMemory(data: Cap) { data.tag && !data.Sealed() && CapInvoke in data.perms }

  /** `_stack_allocate` returns the upper end of a fresh mapping. */
  predicate StackMemory(stack: Cap) { stack.length > 0 && stack.address == stack.base + stack.length }

  predicate Apart(a: Cap, b: Cap) { SwapSwitch.StackOf(a).Disjoint(SwapSwitch.StackOf(b)) }

  predicate AllApart(stacks: seq<Cap>) {
    && (forall i :: 0 <= i < |stacks| ==> StackMemory(stacks[i]))
    && (forall i, j :: 0 <= i < j < |stacks| ==> Apart(stacks[i], stacks[j]))
  }

  lemma OneMoreStack(stacks: seq<Cap>, stack: Cap, flags: Option<Flags>)
    requires AllApart(stacks) && StackMemory(stack) && forall i :: 0 <= i < |stacks| ==> Apart(stacks[i], stack)
    ensures AllApart(stacks + [StackFor(stack, flags)])
  {
  }

  /** The key can seal with every 15-bit object type, and the ID capability is fit for its purpose. */
  predicate Ready(sealer: Cap, cid: Cap) {
    && sealer.tag && !sealer.Sealed() && Seal in sealer.perms && sealer.base == 0 && sealer.length > MAX_OTYPE
    && cid.tag && !cid.Sealed() && CmptId in cid.perms
  }

  /** Entry, exit and data carry the object type of the ID, and pair with each other unless it is reserved. */
  predicate Paired(i: Impl) {
    && i.entry.tag && i.exit.tag && i.data.tag
    && i.entry.otype == i.exit.otype == i.data.otype == OtypeOf(i.cid.address)
    && (OtypeOf(i.cid.address) > LB ==> BrsOk(i.entry, i.data) && BrsOk(i.exit, i.data))
  }

  /** The parts of a new compartment belong together. */
  lemma OwnPartsPair(sealer: Cap, cid: Cap, target: Cap, code: Cap, data: Cap)
    requires Ready(sealer, cid) && CodeMemory(code) && DataMemory(data)
    ensures var i := MakeImpl(sealer, cid, target, code, data);
            Paired(i) && i.cid.address == cid.address
  {
    var key := sealer.At(OtypeOf(cid.address));
    assert key.base <= key.address < key.base + key.length;
  }

  /** Two IDs share an object type exactly if they agree modulo 2^15 once both are at least 4. */
  lemma OtypeCollision(a: int, b: int)
    ensures OtypeOf(a) == OtypeOf(b) <==>
            ((if a < 4 then 4 else a) - (if b < 4 then 4 else b)) % 0x8000 == 0
  {
    var x, y := if a < 4 then 4 else a, if b < 4 then 4 else b;
    assert x == 0x8000 * (x / 0x8000) + x % 0x8000 && y == 0x8000 * (y / 0x8000) + y % 0x8000;
    if x % 0x8000 == y % 0x8000 {
      assert x - y == 0x8000 * (x / 0x8000 - y / 0x8000);
    }
  }

  /** The clamp comes before the cut, so IDs that wrap around reach the reserved types after all. */
  lemma OtypeReserved(a: int)
    ensures OtypeOf(a) <= LB <==> a >= 0x8000 && a % 0x8000 < 4
    ensures 4 <= a <= MAX_OTYPE ==> OtypeOf(a) == a
    ensures OtypeOf(0x8001) == RB && OtypeOf(0x8004) == OtypeOf(4)
  {
  }

  class CmptManager {
    const sealer: Cap
    const pcc: Cap
    var cid: Cap
    ghost var made: seq<Impl>
    ghost var stacks: seq<Cap>

    /** The global capabilities are valid. */
    predicate Initialised()
      reads this
    {
      sealer.tag && cid.tag
    }

    /** Every compartment has its own ID below the counter, and its parts pair with each other only. */
    ghost predicate Valid()
      reads this
    {
      && (Initialised() ==> Ready(sealer, cid)) && |made| == |stacks| && AllApart(stacks)
      && (forall i :: 0 <= i < |made| ==> Paired(made[i]) && made[i].cid.address < cid.address)
      && (forall i, j :: 0 <= i < j < |made| ==> made[i].cid.address < made[j].cid.address)
    }

    /** `init_cmpt_manager` */
    constructor (sealCap: Cap, cidCap: Cap, pcc: Cap, seed: nat)
      requires Ready(sealCap.PermsAnd({Seal}), cidCap)
      ensures Valid() && Initialised() && made == [] && cid == cidCap.At(seed)
    {
      sealer, cid := sealCap.PermsAnd({Seal}), cidCap.At(seed);
      this.pcc := pcc;
      made, stacks := [], [];
    }

    /** Before `init_cmpt_manager` the globals are NULL. */
    constructor Uninitialised(pcc: Cap)
      ensures Valid() && !Initialised() && made == []
    {
      sealer, cid := NULL, NULL;
      this.pcc := pcc;
      made, stacks := [], [];
    }

    /**
     * `create_cmpt`, with the three allocations as parameters; each may fail. The counter moves on as
     * soon as the code page exists, even if the call fails later.
     */
    method CreateCmpt(target: Cap, flags: Option<Flags>, code: Option<Cap>, data: Option<Cap>, stack: Option<Cap>)
      returns (r: Result<(Impl, Data)>)
      requires Valid()
      requires code.Some? ==> CodeMemory(code.value)
      requires data.Some? ==> DataMemory(data.value)
      requires stack.Some? ==>
                 StackMemory(stack.value) && forall i :: 0 <= i < |stacks| ==> Apart(stacks[i], stack.value)
      modifies this
      ensures Valid() && Initialised() == old(Initialised())
      ensures cid == if Initialised() && code.Some? then old(cid).Plus(1) else old(cid)
      ensures r == Err(EFAULT) <==> !Initialised()
      ensures r == Err(ENOMEM) <==> Initialised() && (code.None? || data.None? || stack.None?)
      ensures r.Err? ==> made == old(made) && stacks == old(stacks)
      ensures r.Ok? ==>
                && r.value.0 == MakeImpl(sealer, old(cid), Target(target, pcc, flags), code.value, data.value)
                && r.value.1 == Data(StackFor(stack.value, flags), NULL)
                && made == old(made) + [r.value.0] && stacks == old(stacks) + [r.value.1.stack]
      ensures r.Ok? ==>
                var t, reseal := r.value.0.target, flags.Some? && !flags.value.pccSystemReg;
                && t.base == target.base && t.length == target.length && t.address == target.address
                && t.perms == (if reseal then target.perms - {SysReg} else target.perms)
                && t.Sealed() && (target.otype <= 1 || reseal ==> t.otype == 1)
                && (target.tag && (reseal && target.Sealed() ==>
                      && pcc.tag && !pcc.Sealed() && target.perms - {SysReg} <= pcc.perms
                      && pcc.base <= target.base && target.base + target.length <= pcc.base + pcc.length)
                    ==> t.tag)
    {
      TargetMeans(target, pcc, flags);
      hide Paired, BspSeal, Reseal, AllApart, Apart;
      if !sealer.tag || !cid.tag {
        return Err(EFAULT);
      }
      if code.None? {
        return Err(ENOMEM);
      }
      var implCid := Sentry(cid);
      ghost var id := cid;
      cid := cid.Plus(1);
      var implTarget := target;
      if flags.Some? && !flags.value.pccSystemReg {
        implTarget := Reseal(implTarget, pcc, {SysReg});
      }
      if !implTarget.Sealed() {
        implTarget := Sentry(implTarget);
      }
      if data.None? {
        return Err(ENOMEM);
      }
      var implData := data.value.PermsAnd(RWI_PERMS);
      if stack.None? {
        return Err(ENOMEM);
      }
      var record := Data(stack.value, NULL);
      if flags.Some? && !flags.value.stackStoreLocal {
        record := record.(stack := record.stack.PermsClear({StoreLocalCap}));
      }
      if flags.Some? && !flags.value.stackMutableLoad {
        record := record.(stack := record.stack.PermsClear({MutableLoad}));
      }
      implData := BspSeal(sealer, implData, implCid);
      var entry := BspSeal(sealer, code.value.Plus(START_OFFSET + 1).PermsAnd(RXI_PERMS), implCid);
      var exit := BspSeal(sealer, code.value.Plus(END_OFFSET + 1).PermsAnd(RXI_PERMS), implCid);
      var impl := Impl(implCid, implTarget, entry, implData, exit);
      OwnPartsPair(sealer, id, implTarget, code.value, data.value);
      OneMoreStack(stacks, stack.value, flags);
      made, stacks := made + [impl], stacks + [record.stack];
      r := Ok((impl, record));
    }

    /**
     * While IDs stay between 4 and 0x7fff, object types are pairwise distinct and not reserved, and a
     * branch to a sealed pair succeeds with the parts of one compartment only.
     */
    lemma DistinctTypes(i: nat, j: nat)
      requires Valid() && i < |made| && j < |made|
      requires 4 <= made[i].cid.address <= MAX_OTYPE && 4 <= made[j].cid.address <= MAX_OTYPE
      ensures made[i].data.otype > LB
      ensures BrsOk(made[i].entry, made[j].data) <==> i == j
      ensures BrsOk(made[i].exit, made[j].data) <==> i == j
    {
      hide BrsOk;
      OtypeReserved(made[i].cid.address);
      OtypeReserved(made[j].cid.address);
      assert i < j ==> made[i].cid.address < made[j].cid.address;
      assert j < i ==> made[j].cid.address < made[i].cid.address;
      if i != j {
        TypesMustAgree(made[i].entry, made[j].data);
        TypesMustAgree(made[i].exit, made[j].data);
      }
    }

    /** The stacks that were created are where runs of the switching protocol may start. */
    lemma ReadyToRun(p: SwapSwitch.Protocol, root: Cap, regs: seq<Cap>, mem: SwapSwitch.Cells)
      requires Valid() && p.Valid() && |regs| == 31
      requires root.length > 0 && root.base <= root.address <= root.base + root.length
      requires forall i :: 0 <= i < |stacks| ==> Apart(root, stacks[i])
      ensures var init, s := SwapSwitch.Init(root, stacks), SwapSwitch.State(root, regs, mem, stacks);
              SwapSwitch.Inv(p, init, SwapSwitch.Config(s, []))
    {
      hide Ready, Paired;
      FreshStacksAreInit(root, stacks);
      SwapSwitch.StartKeepsInv(p, SwapSwitch.Init(root, stacks), regs, mem);
    }
  }

  lemma TypesMustAgree(code: Cap, data: Cap)
    requires code.otype != data.otype
    ensures !BrsOk(code, data)
  {
  }

  /** Disjoint stacks make the initial state of the switching machine. */
  lemma FreshStacksAreInit(root: Cap, stacks: seq<Cap>)
    requires root.length > 0 && root.base <= root.address <= root.base + root.length
    requires AllApart(stacks) && forall i :: 0 <= i < |stacks| ==> Apart(root, stacks[i])
    ensures SwapSwitch.Init(root, stacks).Valid()
  {
    var s := SwapSwitch.Init(root, stacks).Stacks();
    assert forall i :: 0 <= i < |stacks| ==> s[i + 1] == SwapSwitch.StackOf(stacks[i]);
    assert forall i, j :: 0 <= i < j < |stacks| ==> Apart(stacks[i], stacks[j]);
  }
}
