/**
 * The trampoline of `src/compartments/src/manager.c`, instruction group by instruction group, and what
 * becomes of the compartment ID register.
 */
module Bsp {
  import opened Capability
  import opened Manager
  import opened SwapSwitch

  /** Registers c19 to c30 in the order in which the trampoline stores them. */
  const BSP: Protocol := Protocol([29, 30, 27, 28, 25, 26, 23, 24, 21, 22, 19, 20], 0)

  lemma BspValid()
    ensures BSP.Valid() && BSP.Size() == 192
  {
  }

  /** The saved registers are c19 to c30. */
  lemma SameSaved(x: seq<Cap>, y: seq<Cap>)
    requires |x| == |y| == 31 && BSP.Valid()
    ensures SavedRegs(BSP, x) == SavedRegs(BSP, y) ==> forall r :: 19 <= r <= 30 ==> x[r] == y[r]
  {
    if SavedRegs(BSP, x) == SavedRegs(BSP, y) {
      var v, w := SavedRegs(BSP, x), SavedRegs(BSP, y);
      assert v[0] == w[0] && v[1] == w[1] && v[2] == w[2] && v[3] == w[3] && v[4] == w[4] && v[5] == w[5];
      assert v[6] == w[6] && v[7] == w[7] && v[8] == w[8] && v[9] == w[9] && v[10] == w[10] && v[11] == w[11];
    }
  }

  /** `stp x, y, [a]` */
  function StorePair(mem: Cells, a: int, x: Cap, y: Cap): Cells {
    mem[a := x][a + 16 := y]
  }

  /** Registers `from` to `to` set to zero. */
  function Zeroed(c: seq<Cap>, from: nat, to: nat): (r: seq<Cap>)
    requires from <= to < |c|
    ensures |r| == |c| && forall i :: 0 <= i < |c| ==> r[i] == if from <= i <= to then NULL else c[i]
  {
    seq(|c|, i requires 0 <= i < |c| => if from <= i <= to then NULL else c[i])
  }

  class Trampoline {
    /** What `create_cmpt` put next to the trampoline code of each compartment. */
    const impls: seq<Impl>

    var csp: Cap
    var cid: Cap
    var c: seq<Cap>
    var mem: Cells
    /** `stack` and `cid` of the data record of each compartment. */
    var slots: seq<Cap>
    var cids: seq<Cap>

    ghost predicate Valid()
      reads this
    {
      && |c| == 31 && |slots| == |cids| == |impls|
      && forall k :: 0 <= k < |impls| ==> BrsOk(impls[k].entry, impls[k].data) && BrsOk(impls[k].exit, impls[k].data)
    }

    ghost function Snapshot(): State
      reads this
    {
      State(csp, c, mem, slots)
    }

    constructor (impls: seq<Impl>, root: Cap, cid: Cap, regs: seq<Cap>, slots: seq<Cap>)
      requires |regs| == 31 && |slots| == |impls|
      requires forall k :: 0 <= k < |impls| ==>
                 BrsOk(impls[k].entry, impls[k].data) && BrsOk(impls[k].exit, impls[k].data)
      ensures Valid() && Snapshot() == State(root, regs, map[], slots) && this.cid == cid && this.impls == impls
    {
      this.impls, csp, this.cid, c, mem := impls, root, cid, regs, map[];
      this.slots, cids := slots, seq(|impls|, _ => NULL);
    }

    /** `brs c29, code, data`: c29 receives the unsealed data capability. */
    method Brs(code: Cap, data: Cap)
      requires BrsOk(code, data) && |c| == 31
      modifies this`c
      ensures c == old(c)[29 := data.Unsealed()]
    {
      c := c[29 := data.Unsealed()];
    }

    /** The frame is pushed on the caller's stack. */
    method SaveFrame()
      requires |c| == 31
      modifies this`csp, this`mem
      ensures csp == old(csp).Plus(-192)
      ensures WordsAt(mem, csp.address, SavedRegs(BSP, c)) && SameOutside(old(mem), mem, csp.address, csp.address + 192)
    {
      hide WordsAt, SameOutside, SavedRegs;
      ghost var before := mem;
      csp := csp.Plus(-192);
      mem := StorePair(mem, csp.address, c[29], c[30]);
      mem := StorePair(mem, csp.address + 32, c[27], c[28]);
      mem := StorePair(mem, csp.address + 64, c[25], c[26]);
      mem := StorePair(mem, csp.address + 96, c[23], c[24]);
      mem := StorePair(mem, csp.address + 128, c[21], c[22]);
      mem := StorePair(mem, csp.address + 160, c[19], c[20]);
      SavedPairs(before, mem, csp.address, c);
    }

    /** From the first instruction up to the branch to the target of compartment `k`. */
    method Enter(k: nat, link: Cap) returns (pc: Cap)
      requires Valid() && k < |impls|
      modifies this`csp, this`cid, this`c, this`mem, this`slots, this`cids
      ensures Valid()
      ensures Enters(BSP, old(Snapshot()), Snapshot(), k, NULL)
      ensures csp == old(slots[k]) && slots == old(slots)[k := old(csp).Plus(-192)]
      ensures cid == impls[k].cid && cids == old(cids)[k := old(cid)]
      ensures pc == impls[k].target && c[0] == old(c[0]) && c[29] == csp && c[30] == link
      ensures forall i :: 1 <= i <= 28 ==> c[i] == NULL
    {
      hide BrsOk, WordsAt, SavedRegs;
      SaveFrame();
      c := c[26 := impls[k].cid][30 := impls[k].target];
      c := c[27 := impls[k].entry][28 := impls[k].data];
      Brs(c[27], c[28]);
      c := c[28 := cid];
      cids := cids[k := c[28]];
      cid := c[26];
      c := c[28 := csp];
      c := c[27 := slots[k]];
      slots := slots[k := c[28]];
      c := c[29 := c[27]];
      csp := c[29];
      c := Zeroed(c, 1, 28);
      pc := c[30];
      c := c[30 := link];
    }

    /** The frame is popped from the caller's stack. */
    method RestoreFrame()
      requires |c| == 31
      modifies this`csp, this`c
      ensures csp == old(csp).Plus(192) && |c| == 31 && c[..19] == old(c)[..19]
      ensures WordsAt(mem, old(csp).address, SavedRegs(BSP, c))
    {
      hide WordsAt, SavedRegs;
      c := c[19 := LoadCell(mem, csp.address + 160)][20 := LoadCell(mem, csp.address + 176)];
      c := c[21 := LoadCell(mem, csp.address + 128)][22 := LoadCell(mem, csp.address + 144)];
      c := c[23 := LoadCell(mem, csp.address + 96)][24 := LoadCell(mem, csp.address + 112)];
      c := c[25 := LoadCell(mem, csp.address + 64)][26 := LoadCell(mem, csp.address + 80)];
      c := c[27 := LoadCell(mem, csp.address + 32)][28 := LoadCell(mem, csp.address + 48)];
      c := c[29 := LoadCell(mem, csp.address)][30 := LoadCell(mem, csp.address + 16)];
      LoadedPairs(mem, csp.address, c);
      csp := csp.Plus(192);
    }

    /** From the return of the target of compartment `k` up to the return to the caller. */
    method Leave(k: nat) returns (pc: Cap)
      requires Valid() && k < |impls|
      modifies this`csp, this`cid, this`c, this`slots
      ensures Valid()
      ensures Leaves(BSP, old(Snapshot()), Snapshot(), k)
      ensures csp == old(slots[k]).Plus(192) && slots == old(slots)[k := old(csp)]
      ensures cid == cids[k] && pc == c[30] && c[0] == old(c[0])
      ensures forall i :: 1 <= i <= 18 ==> c[i] == NULL
    {
      hide BrsOk, WordsAt, SavedRegs;
      c := Zeroed(c, 1, 18);
      c := c[28 := impls[k].data][27 := impls[k].exit];
      Brs(c[27], c[28]);
      c := c[28 := cids[k]];
      cid := c[28];
      c := c[28 := csp];
      c := c[27 := slots[k]];
      slots := slots[k := c[28]];
      csp := c[27];
      ghost var low := c[..19];
      RestoreFrame();
      assert forall i :: 0 <= i <= 18 ==> c[i] == low[i];
      pc := c[30];
    }
  }

  lemma ThreePairs(before: Cells, after: Cells, a: int, w: seq<Cap>)
    requires |w| == 6
    requires after == StorePair(StorePair(StorePair(before, a, w[0], w[1]), a + 32, w[2], w[3]), a + 64, w[4], w[5])
    ensures WordsAt(after, a, w) && SameOutside(before, after, a, a + 96)
  {
  }

  lemma SavedPairs(before: Cells, after: Cells, a: int, c: seq<Cap>)
    requires |c| == 31
    requires var mid := StorePair(StorePair(before, a, c[29], c[30]), a + 32, c[27], c[28]);
             var low := StorePair(mid, a + 64, c[25], c[26]);
             var top := StorePair(StorePair(low, a + 96, c[23], c[24]), a + 128, c[21], c[22]);
             after == StorePair(top, a + 160, c[19], c[20])
    ensures WordsAt(after, a, SavedRegs(BSP, c))
    ensures SameOutside(before, after, a, a + 192)
  {
    var v, w := [c[29], c[30], c[27], c[28], c[25], c[26]], [c[23], c[24], c[21], c[22], c[19], c[20]];
    var low := StorePair(StorePair(StorePair(before, a, c[29], c[30]), a + 32, c[27], c[28]), a + 64, c[25], c[26]);
    assert SavedRegs(BSP, c) == v + w;
    hide StorePair, SavedRegs;
    ThreePairs(before, low, a, v);
    ThreePairs(low, after, a + 96, w);
    Adjacent(before, low, after, a, v, w);
  }

  lemma Adjacent(before: Cells, low: Cells, after: Cells, a: int, v: seq<Cap>, w: seq<Cap>)
    requires WordsAt(low, a, v) && SameOutside(before, low, a, a + 16 * |v|)
    requires WordsAt(after, a + 16 * |v|, w) && SameOutside(low, after, a + 16 * |v|, a + 16 * (|v| + |w|))
    ensures WordsAt(after, a, v + w) && SameOutside(before, after, a, a + 16 * (|v| + |w|))
  {
    forall i | 0 <= i < |v + w|
      ensures LoadCell(after, a + 16 * i) == (v + w)[i]
    {
      if i >= |v| {
        assert LoadCell(after, a + 16 * |v| + 16 * (i - |v|)) == w[i - |v|];
      }
    }
  }

  lemma LoadedPairs(mem: Cells, a: int, c: seq<Cap>)
    requires |c| == 31
    requires c[29] == LoadCell(mem, a) && c[30] == LoadCell(mem, a + 16)
    requires c[27] == LoadCell(mem, a + 32) && c[28] == LoadCell(mem, a + 48)
    requires c[25] == LoadCell(mem, a + 64) && c[26] == LoadCell(mem, a + 80)
    requires c[23] == LoadCell(mem, a + 96) && c[24] == LoadCell(mem, a + 112)
    requires c[21] == LoadCell(mem, a + 128) && c[22] == LoadCell(mem, a + 144)
    requires c[19] == LoadCell(mem, a + 160) && c[20] == LoadCell(mem, a + 176)
    ensures WordsAt(mem, a, SavedRegs(BSP, c))
  {
  }

  // ---------------------------------------------------------------- The compartment ID register

  /** The switching machine together with CID_EL0 and the saved-CID cell of every compartment. */
  datatype CidConfig = CidConfig(c: Config, cid: Cap, cids: seq<Cap>)

  datatype Event = Called(k: nat) | Returned | Worked

  ghost predicate Does(impls: seq<Impl>, init: Init, e: Event, x: CidConfig, y: CidConfig) {
    && |x.cids| == |y.cids| == |impls|
    && match e
       case Called(k) =>
         && k < |impls| && Call(BSP, init, x.c, y.c, k, NULL)
         && y.cid == impls[k].cid && y.cids == x.cids[k := x.cid]
       case Returned =>
         && Return(BSP, init, x.c, y.c) && Last(x.c.fs).callee < |impls|
         && y.cid == x.cids[Last(x.c.fs).callee] && y.cids == x.cids
       case Worked =>
         Work(BSP, init, x.c, y.c) && y.cids == x.cids
  }

  ghost predicate CidRun(impls: seq<Impl>, init: Init, es: seq<Event>, h: seq<CidConfig>) {
    |h| == |es| + 1 && forall i :: 0 <= i < |es| ==> Does(impls, init, es[i], h[i], h[i + 1])
  }

  function Configs(h: seq<CidConfig>): seq<Config> {
    seq(|h|, i requires 0 <= i < |h| => h[i].c)
  }

  /** The run is one call into `k`, from the call to the matching return; `j` is the last entry into `k`. */
  ghost predicate CallOf(impls: seq<Impl>, init: Init, es: seq<Event>, h: seq<CidConfig>, k: nat, j: nat) {
    && CidRun(impls, init, es, h) && |h| >= 3 && Inv(BSP, init, h[0].c)
    && es[0] == Called(k) && es[|es| - 1] == Returned
    && |h[|h| - 1].c.fs| == |h[0].c.fs|
    && (forall i :: 0 < i < |h| - 1 ==> |h[i].c.fs| > |h[0].c.fs|)
    && j < |es| && es[j] == Called(k) && (forall i :: j < i < |es| ==> es[i] != Called(k))
  }

  lemma CallOfIsWholeCall(impls: seq<Impl>, init: Init, es: seq<Event>, h: seq<CidConfig>, k: nat, j: nat)
    requires CallOf(impls, init, es, h, k, j)
    ensures WholeCall(BSP, init, Configs(h)) && Last(h[|h| - 2].c.fs).callee == k
  {
    hide Inv, Call, Return, Work, SwapSwitch.Run;
    CidRunIsRun(impls, init, es, h);
    var g := Configs(h);
    assert Does(impls, init, es[0], h[0], h[1]);
    assert Does(impls, init, es[|es| - 1], h[|h| - 2], h[|h| - 1]);
    assert Call(BSP, init, g[0], g[1], k, NULL);
    assert forall i :: 0 < i < |g| - 1 ==> |g[i].fs| > |g[0].fs|;
    assert WholeCall(BSP, init, g);
    hide WholeCall;
    WholeCallFrames(BSP, init, g);
    CalledFrame(init, h[0].c, h[1].c, k);
  }

  lemma CalledFrame(init: Init, c: Config, d: Config, k: nat)
    requires Call(BSP, init, c, d, k, NULL)
    ensures d.fs != [] && Last(d.fs).callee == k
  {
  }

  /** A saved CID changes only when its compartment is entered. */
  lemma {:induction false} SavedCidKept(impls: seq<Impl>, init: Init, es: seq<Event>, h: seq<CidConfig>,
                                        k: nat, j: nat, i: nat)
    requires CidRun(impls, init, es, h) && k < |impls| && j < i <= |es| && es[j] == Called(k)
    requires forall n :: j < n < i ==> es[n] != Called(k)
    ensures |h[i].cids| == |impls| && h[i].cids[k] == h[j].cid
  {
    hide Call, Return, Work;
    assert Does(impls, init, es[i - 1], h[i - 1], h[i]);
    if i > j + 1 {
      SavedCidKept(impls, init, es, h, k, j, i - 1);
    }
  }

  /** Suspended caller number `n` entered `k` in the given context, and `k` was not entered again since. */
  predicate LastInto(fs: Frames, n: nat, k: nat, context: Context) {
    && n < |fs| && fs[n].callee == k && fs[n].context == context
    && forall m :: n < m < |fs| ==> fs[m].callee != k
  }

  lemma LastIntoStep(impls: seq<Impl>, init: Init, e: Event, x: CidConfig, y: CidConfig,
                     n: nat, k: nat, context: Context)
    requires Does(impls, init, e, x, y) && LastInto(x.c.fs, n, k, context) && e != Called(k) && n < |y.c.fs|
    ensures LastInto(y.c.fs, n, k, context)
  {
    hide Enters, Leaves, MayCall, MayEnter, Given;
  }

  lemma CalledIsLast(init: Init, c: Config, d: Config, k: nat)
    requires Call(BSP, init, c, d, k, NULL)
    ensures |c.s.regs| == 31 && LastInto(d.fs, |c.fs|, k, ContextOf(BSP, c.s))
  {
  }

  lemma {:induction false} CallStaysLast(impls: seq<Impl>, init: Init, es: seq<Event>, h: seq<CidConfig>,
                                         k: nat, j: nat, i: nat)
    requires CidRun(impls, init, es, h) && j < i <= |es| && es[j] == Called(k)
    requires forall n :: j < n < i ==> es[n] != Called(k)
    requires forall n :: j < n <= i ==> |h[n].c.fs| > |h[j].c.fs|
    ensures BSP.Valid() && |h[j].c.s.regs| == 31
    ensures LastInto(h[i].c.fs, |h[j].c.fs|, k, ContextOf(BSP, h[j].c.s))
  {
    hide Call, Return, Work, LastInto, ContextOf;
    BspValid();
    assert Does(impls, init, es[i - 1], h[i - 1], h[i]);
    if i > j + 1 {
      CallStaysLast(impls, init, es, h, k, j, i - 1);
      LastIntoStep(impls, init, es[i - 1], h[i - 1], h[i], |h[j].c.fs|, k, ContextOf(BSP, h[j].c.s));
    } else {
      CalledIsLast(init, h[j].c, h[i].c, k);
    }
  }

  lemma CidRunIsRun(impls: seq<Impl>, init: Init, es: seq<Event>, h: seq<CidConfig>)
    requires CidRun(impls, init, es, h) && Inv(BSP, init, h[0].c)
    ensures SwapSwitch.Run(BSP, init, Configs(h))
  {
    hide Inv, Call, Return, Work;
    var g := Configs(h);
    forall i | 0 <= i < |g| - 1
      ensures SwapSwitch.Step(BSP, init, g[i], g[i + 1])
    {
      assert Does(impls, init, es[i], h[i], h[i + 1]);
    }
  }

  /**
   * As long as a call into `k` is active and nobody enters `k` again, the data record of `k` holds the
   * caller: its stack pointer, below which its registers are saved, and its CID.
   */
  lemma CallerInDataRecord(impls: seq<Impl>, init: Init, es: seq<Event>, h: seq<CidConfig>, k: nat, j: nat, i: nat)
    requires CidRun(impls, init, es, h) && Inv(BSP, init, h[0].c) && j < i <= |es| && es[j] == Called(k)
    requires forall n :: j < n < i ==> es[n] != Called(k)
    requires forall n :: j < n <= i ==> |h[n].c.fs| > |h[j].c.fs|
    ensures k < |h[i].cids| == |impls| && h[i].cids[k] == h[j].cid
    ensures k < |h[i].c.s.slots| && h[i].c.s.slots[k] == h[j].c.s.csp.Plus(-192)
    ensures |h[j].c.s.regs| == 31 && BSP.Valid()
    ensures WordsAt(h[i].c.s.mem, h[i].c.s.slots[k].address, SavedRegs(BSP, h[j].c.s.regs))
  {
    hide Inv, Call, Return, Work, SwapSwitch.Run, LastInto, ContextOf, WordsAt;
    CidRunIsRun(impls, init, es, h);
    RunKeepsInv(BSP, init, Configs(h), i);
    CallStaysLast(impls, init, es, h, k, j, i);
    RecordOf(init, h[i].c, |h[j].c.fs|, k, h[j].c.s);
    assert Does(impls, init, es[j], h[j], h[j + 1]);
    SavedCidKept(impls, init, es, h, k, j, i);
  }

  lemma RecordOf(init: Init, c: Config, n: nat, k: nat, s: State)
    requires Inv(BSP, init, c) && BSP.Valid() && |s.regs| == 31 && LastInto(c.fs, n, k, ContextOf(BSP, s))
    ensures k < |c.s.slots| && c.s.slots[k] == s.csp.Plus(-192)
    ensures WordsAt(c.s.mem, c.s.slots[k].address, SavedRegs(BSP, s.regs))
  {
    hide Slots, Nested, WordsAt, SavedRegs;
    SlotHoldsLastCaller(BSP, init, c.fs, n);
  }

  /**
   * The matching return restores stack pointer, saved registers and slots, and sets CID to what it was
   * at the last entry into the compartment. So the caller gets its CID back exactly if the last code to
   * enter the compartment ran under the same CID, and certainly if nobody else entered it meanwhile.
   */
  lemma CidRestored(impls: seq<Impl>, init: Init, es: seq<Event>, h: seq<CidConfig>, k: nat, j: nat)
    requires CallOf(impls, init, es, h, k, j)
    ensures |h[0].c.s.regs| == |h[|h| - 1].c.s.regs| == 31
    ensures BSP.Valid() && ContextOf(BSP, h[|h| - 1].c.s) == ContextOf(BSP, h[0].c.s)
    ensures h[|h| - 1].c.s.csp == h[0].c.s.csp && h[|h| - 1].c.s.slots == h[0].c.s.slots
    ensures forall r :: 19 <= r <= 30 ==> h[|h| - 1].c.s.regs[r] == h[0].c.s.regs[r]
    ensures h[|h| - 1].cid == h[j].cid
    ensures h[|h| - 1].cid == h[0].cid <==> h[j].cid == h[0].cid
    ensures (forall i :: 0 < i < |es| ==> es[i] != Called(k)) ==> h[|h| - 1].cid == h[0].cid
  {
    hide Inv, Call, Return, Work, WholeCall;
    CallOfIsWholeCall(impls, init, es, h, k, j);
    WholeCallRestores(BSP, init, Configs(h));
    BspValid();
    SameSaved(h[|h| - 1].c.s.regs, h[0].c.s.regs);
    var m := |es| - 1;
    assert Does(impls, init, es[0], h[0], h[1]);
    assert Does(impls, init, es[m], h[m], h[m + 1]);
    SavedCidKept(impls, init, es, h, k, j, m);
  }

  /** Entering a compartment again while it is active loses the CID of the first caller. */
  method ReentryLosesCid(impl: Impl, root: Cap, stack: Cap, cid: Cap, regs: seq<Cap>)
    returns (inside: Cap, between: Cap, after: Cap)
    requires BrsOk(impl.entry, impl.data) && BrsOk(impl.exit, impl.data) && |regs| == 31
    ensures inside == between == after == impl.cid
  {
    var t := new Trampoline([impl], root, cid, regs, [stack]);
    var pc := t.Enter(0, NULL);
    pc := t.Enter(0, NULL);
    inside := t.cid;
    pc := t.Leave(0);
    between := t.cid;
    pc := t.Leave(0);
    after := t.cid;
  }
}
