/**
 * The private-stack switch of `src/compartments/src/switch.S`: the protected object itself is the data
 * half of the sealed pair, its `stack` field is the slot that is swapped, and its sealed form waits at
 * the top of the private stack for the return.
 */
module PrivateStack {
  import opened Capability
  import opened Manager
  import opened SwapSwitch
  import opened Bsp

  /** Registers c27 to c30, and one capability of the callee's stack for the sealed object. */
  const PRIVATE: Protocol := Protocol([29, 30, 27, 28], 16)

  lemma PrivateValid()
    ensures PRIVATE.Valid() && PRIVATE.Size() == 64
  {
  }

  /** What `protect` stores behind the relocated code. */
  datatype SwitchCode = SwitchCode(target: Cap, protStart: Cap, protEnd: Cap)

  lemma PrivatePairs(before: Cells, after: Cells, a: int, c: seq<Cap>)
    requires |c| == 31
    requires after == StorePair(StorePair(before, a, c[29], c[30]), a + 32, c[27], c[28])
    ensures WordsAt(after, a, SavedRegs(PRIVATE, c)) && SameOutside(before, after, a, a + 64)
  {
  }

  class Switch {
    const code: SwitchCode
    /** The sealed objects that callers pass in c0. */
    const objects: seq<Cap>

    var csp: Cap
    var c: seq<Cap>
    var mem: Cells
    /** The `stack` field of each object. */
    var slots: seq<Cap>

    ghost predicate Valid()
      reads this
    {
      && |c| == 31 && |slots| == |objects|
      && forall k :: 0 <= k < |objects| ==> BrsOk(code.protStart, objects[k]) && BrsOk(code.protEnd, objects[k])
    }

    ghost function Snapshot(): State
      reads this
    {
      State(csp, c, mem, slots)
    }

    method Brs(pcTarget: Cap, data: Cap)
      requires BrsOk(pcTarget, data) && |c| == 31
      modifies this`c
      ensures c == old(c)[29 := data.Unsealed()]
    {
      c := c[29 := data.Unsealed()];
    }

    method SaveFrame()
      requires |c| == 31
      modifies this`csp, this`mem
      ensures csp == old(csp).Plus(-64)
      ensures WordsAt(mem, csp.address, SavedRegs(PRIVATE, c))
      ensures SameOutside(old(mem), mem, csp.address, csp.address + 64)
    {
      hide WordsAt, SameOutside, SavedRegs;
      ghost var before := mem;
      csp := csp.Plus(-64);
      mem := StorePair(mem, csp.address, c[29], c[30]);
      mem := StorePair(mem, csp.address + 32, c[27], c[28]);
      PrivatePairs(before, mem, csp.address, c);
    }

    /** `__brs_switch` and `__prot_start`, up to the call of the target with the unsealed object. */
    method Enter(k: nat, link: Cap) returns (pc: Cap)
      requires Valid() && k < |objects| && c[0] == objects[k]
      requires StackOf(csp).Disjoint(StackOf(slots[k])) && MayEnter(PRIVATE, slots[k])
      requires csp.base + 64 <= csp.address <= csp.base + csp.length
      modifies this`csp, this`c, this`mem, this`slots
      ensures Valid()
      ensures Enters(PRIVATE, old(Snapshot()), Snapshot(), k, objects[k])
      ensures csp == old(slots[k]).Plus(-16) && slots == old(slots)[k := old(csp).Plus(-64)]
      ensures LoadCell(mem, csp.address) == objects[k]
      ensures pc == code.target && c[0] == objects[k].(otype := 0) && c[30] == link && c[1..27] == old(c)[1..27]
    {
      hide BrsOk, WordsAt;
      ghost var words := SavedRegs(PRIVATE, c);
      SaveFrame();
      ghost var sp, framed := csp, mem;
      c := c[30 := code.target][29 := code.protStart];
      Brs(c[29], c[0]);
      c := c[28 := c[29]];
      c := c[27 := slots[k]];
      c := c[29 := csp];
      slots := slots[k := c[29]];
      c := c[29 := c[27]];
      csp := c[29];
      csp := csp.Plus(-16);
      mem := mem[csp.address := c[0]];
      TokenApart(framed, mem, sp, csp, c[0], words);
      c := c[0 := c[28]];
      pc := c[30];
      c := c[30 := link];
    }

    /** From the return of the target through `__prot_end` to the return to the caller. */
    method Leave(k: nat) returns (pc: Cap)
      requires Valid() && k < |objects| && LoadCell(mem, csp.address) == objects[k]
      modifies this`csp, this`c, this`slots
      ensures Valid()
      ensures Leaves(PRIVATE, old(Snapshot()), Snapshot(), k)
      ensures csp == old(slots[k]).Plus(64) && slots == old(slots)[k := old(csp).Plus(16)]
      ensures pc == c[30] && forall i :: 0 <= i < 27 ==> c[i] == old(c)[i]
    {
      hide BrsOk, WordsAt, SavedRegs;
      c := c[28 := LoadCell(mem, csp.address)];
      csp := csp.Plus(16);
      c := c[29 := code.protEnd];
      Brs(c[29], c[28]);
      c := c[28 := c[29]];
      c := c[27 := slots[k]];
      c := c[29 := csp];
      slots := slots[k := c[29]];
      csp := c[27];
      c := c[29 := LoadCell(mem, csp.address)][30 := LoadCell(mem, csp.address + 16)];
      c := c[27 := LoadCell(mem, csp.address + 32)][28 := LoadCell(mem, csp.address + 48)];
      PoppedPairs(mem, csp.address, c);
      csp := csp.Plus(64);
      pc := c[30];
    }
  }

  /** The sealed object goes to the callee's stack and leaves the caller's frame alone. */
  lemma TokenApart(before: Cells, after: Cells, sp: Cap, top: Cap, token: Cap, words: seq<Cap>)
    requires |words| == 4 && WordsAt(before, sp.address, words)
    requires StackOf(sp).Disjoint(StackOf(top))
    requires sp.base <= sp.address && sp.address + 64 <= sp.base + sp.length
    requires top.base <= top.address && top.address + 16 <= top.base + top.length
    requires after == before[top.address := token]
    ensures WordsAt(after, sp.address, words)
    ensures SameOutside(before, after, top.address, top.address + 16)
  {
  }

  lemma PoppedPairs(mem: Cells, a: int, c: seq<Cap>)
    requires |c| == 31
    requires c[29] == LoadCell(mem, a) && c[30] == LoadCell(mem, a + 16)
    requires c[27] == LoadCell(mem, a + 32) && c[28] == LoadCell(mem, a + 48)
    ensures WordsAt(mem, a, SavedRegs(PRIVATE, c))
  {
  }

  // ---------------------------------------------------------------- Runs

  /** A step of the protocol in which a call leaves the sealed form of the object that was called. */
  ghost predicate ObjectStep(objects: seq<Cap>, init: Init, c: Config, d: Config) {
    || (exists k: nat :: k < |objects| && Call(PRIVATE, init, c, d, k, objects[k]))
    || Return(PRIVATE, init, c, d)
    || Work(PRIVATE, init, c, d)
  }

  /** A run from the start, when no call is active. */
  ghost predicate ObjectRun(objects: seq<Cap>, init: Init, regs: seq<Cap>, mem: Cells, h: seq<Config>) {
    && init.Valid() && |init.slots| == |objects| && |regs| == 31
    && h != [] && h[0] == Config(State(init.root, regs, mem, init.slots), [])
    && forall i :: 0 <= i < |h| - 1 ==> ObjectStep(objects, init, h[i], h[i + 1])
  }

  /** The token of every suspended call is the sealed object that was called. */
  predicate TokensMatch(objects: seq<Cap>, fs: Frames) {
    forall i :: 0 <= i < |fs| ==> fs[i].callee < |objects| && fs[i].token == objects[fs[i].callee]
  }

  lemma TokensStep(objects: seq<Cap>, init: Init, c: Config, d: Config)
    requires TokensMatch(objects, c.fs) && ObjectStep(objects, init, c, d)
    ensures TokensMatch(objects, d.fs) && SwapSwitch.Step(PRIVATE, init, c, d)
  {
    hide Enters, Leaves, MayCall, MayEnter, Given;
  }

  lemma {:induction false} TokensRun(objects: seq<Cap>, init: Init, regs: seq<Cap>, mem: Cells, h: seq<Config>, i: nat)
    requires ObjectRun(objects, init, regs, mem, h) && i < |h|
    ensures Inv(PRIVATE, init, h[i]) && TokensMatch(objects, h[i].fs)
    ensures i + 1 < |h| ==> SwapSwitch.Step(PRIVATE, init, h[i], h[i + 1])
  {
    hide ObjectStep, SwapSwitch.Step, Inv;
    if i > 0 {
      TokensRun(objects, init, regs, mem, h, i - 1);
      RunKeepsInv(PRIVATE, init, h[i - 1..i + 1], 1);
      TokensStep(objects, init, h[i - 1], h[i]);
    } else {
      PrivateValid();
      StartKeepsInv(PRIVATE, init, regs, mem);
    }
    if i + 1 < |h| {
      TokensStep(objects, init, h[i], h[i + 1]);
    }
  }

  /** At every return the cell at the stack pointer holds the sealed form of the object being left. */
  lemma ObjectWaits(objects: seq<Cap>, init: Init, regs: seq<Cap>, mem: Cells, h: seq<Config>, i: nat)
    requires ObjectRun(objects, init, regs, mem, h) && i < |h| && h[i].fs != []
    requires h[i].s.csp == Given(PRIVATE, init, h[i].fs)
    ensures var k := Last(h[i].fs).callee;
            k < |objects| && LoadCell(h[i].s.mem, h[i].s.csp.address) == objects[k]
  {
    hide ObjectStep, SwapSwitch.Step;
    TokensRun(objects, init, regs, mem, h, i);
  }

  /** From step `a`, a call into `k`, to step `b`, its matching return. */
  ghost predicate CallFromTo(objects: seq<Cap>, init: Init, h: seq<Config>, a: nat, b: nat, k: nat) {
    && a + 2 <= b < |h| && k < |objects|
    && Call(PRIVATE, init, h[a], h[a + 1], k, objects[k]) && Return(PRIVATE, init, h[b - 1], h[b])
    && |h[b].fs| == |h[a].fs| && forall i :: a < i < b ==> |h[i].fs| > |h[a].fs|
  }

  lemma CallIsWhole(objects: seq<Cap>, init: Init, regs: seq<Cap>, mem: Cells, h: seq<Config>,
                    a: nat, b: nat, k: nat)
    requires ObjectRun(objects, init, regs, mem, h) && CallFromTo(objects, init, h, a, b, k)
    ensures WholeCall(PRIVATE, init, h[a..b + 1])
  {
    hide SwapSwitch.Step, Inv, Call, Return, ObjectRun, TokensMatch;
    var g := h[a..b + 1];
    forall i | 0 <= i < |g|
      ensures Inv(PRIVATE, init, g[i])
      ensures i + 1 < |g| ==> SwapSwitch.Step(PRIVATE, init, g[i], g[i + 1])
    {
      TokensRun(objects, init, regs, mem, h, a + i);
    }
    assert Call(PRIVATE, init, g[0], g[1], k, objects[k]);
  }

  /**
   * Anywhere in such a run, the return that matches a call into `k` finds the object it has to unseal,
   * and gives back the caller's stack pointer, c27 to c30, and the `stack` fields of all objects.
   */
  lemma ObjectCallRestores(objects: seq<Cap>, init: Init, regs: seq<Cap>, mem: Cells, h: seq<Config>,
                           a: nat, b: nat, k: nat)
    requires ObjectRun(objects, init, regs, mem, h) && CallFromTo(objects, init, h, a, b, k)
    ensures PRIVATE.Valid() && |h[a].s.regs| == |h[b].s.regs| == 31
    ensures ContextOf(PRIVATE, h[b].s) == ContextOf(PRIVATE, h[a].s)
    ensures h[b].s.csp == h[a].s.csp && h[b].s.slots == h[a].s.slots
    ensures forall r :: 27 <= r <= 30 ==> h[b].s.regs[r] == h[a].s.regs[r]
    ensures LoadCell(h[b - 1].s.mem, h[b - 1].s.csp.address) == objects[k]
  {
    hide Call, Return, ObjectRun, Given, WholeCall, ContextOf;
    PrivateValid();
    CalledObject(init, h[a], h[a + 1], k, objects[k]);
    ReturnFromGiven(init, h[b - 1], h[b]);
    CallIsWhole(objects, init, regs, mem, h, a, b, k);
    WholeCallRestores(PRIVATE, init, h[a..b + 1]);
    SamePrivate(h[b].s, h[a].s);
    WholeCallFrames(PRIVATE, init, h[a..b + 1]);
    ObjectWaits(objects, init, regs, mem, h, b - 1);
  }

  lemma SamePrivate(s: State, t: State)
    requires PRIVATE.Valid() && |s.regs| == |t.regs| == 31 && ContextOf(PRIVATE, s) == ContextOf(PRIVATE, t)
    ensures s.csp == t.csp && s.slots == t.slots && forall r :: 27 <= r <= 30 ==> s.regs[r] == t.regs[r]
  {
    SameContext(PRIVATE, s, t);
    assert PRIVATE.saved[0] == 29 && PRIVATE.saved[1] == 30 && PRIVATE.saved[2] == 27 && PRIVATE.saved[3] == 28;
  }

  lemma CalledObject(init: Init, c: Config, d: Config, k: nat, token: Cap)
    requires Call(PRIVATE, init, c, d, k, token)
    ensures d.fs != [] && Last(d.fs).callee == k
  {
  }

  lemma ReturnFromGiven(init: Init, c: Config, d: Config)
    requires Return(PRIVATE, init, c, d)
    ensures c.fs != [] && c.s.csp == Given(PRIVATE, init, c.fs)
  {
  }
}
