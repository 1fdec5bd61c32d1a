/**
 * The two compartment switches that keep the return path on the caller's own stack, behind a sealed
 * pointer in c28: unseal-load-and-branch (`src/compartments/src/lb.S`) and load-pair-and-branch
 * (`src/compartments/src/lpb.S`). Descriptors are only read.
 */
module PairSwitch {
  import opened Capability
  import opened SwapSwitch
  import opened Bsp
  import opened OwnStacks
  import CallStack

  datatype Variant = ByLb | ByLpb
  {
    function Otype(): nat { if ByLb? then LB else LPB }
  }

  /** The fields of `cmpt_desc_t` that both variants have. */
  datatype Descriptor = Descriptor(stack: Cap, target: Cap)

  datatype PState = PState(csp: Cap, regs: seq<Cap>, mem: Cells)

  /**
   * The six words that both variants leave below the caller's stack pointer. The first two are the
   * return pair: code and stack pointer for LB, stack pointer and code for LPB. `lr` is the link of the
   * inner call of LPB and unused by LB.
   */
  function Words(v: Variant, sp: Cap, code: Cap, lr: Cap, regs: seq<Cap>): (w: seq<Cap>)
    requires |regs| == 31
    ensures |w| == 6
  {
    if v.ByLb? then [code, sp, regs[29], regs[30], regs[27], regs[28]]
    else [sp, code, regs[28], lr, regs[29], regs[30]]
  }

  /** The sealed pointer to the return pair: 32 bytes, neither writable nor executable. */
  function Token(v: Variant, sp: Cap): Cap {
    sp.SetBounds(32).PermsClear({Store, Execute}).SealAs(v.Otype())
  }

  /** The registers that the switch itself gives back. */
  function Saved(v: Variant, regs: seq<Cap>): seq<Cap>
    requires |regs| == 31
  {
    if v.ByLb? then regs[27..31] else regs[28..31]
  }

  datatype PContext = PContext(csp: Cap, saved: seq<Cap>)

  function PContextOf(v: Variant, s: PState): PContext
    requires |s.regs| == 31
  {
    PContext(s.csp, Saved(v, s.regs))
  }

  /** The saved registers are c27 to c30 for LB and c28 to c30 for LPB. */
  lemma SameContext(v: Variant, s: PState, t: PState)
    requires |s.regs| == |t.regs| == 31 && PContextOf(v, s) == PContextOf(v, t)
    ensures s.csp == t.csp
    ensures forall r :: (if v.ByLb? then 27 else 28) <= r <= 30 ==> s.regs[r] == t.regs[r]
  {
    var x, y := Saved(v, s.regs), Saved(v, t.regs);
    assert x == y && x[0] == y[0] && x[1] == y[1] && x[2] == y[2] && (v.ByLb? ==> x[3] == y[3]);
  }

  // ---------------------------------------------------------------- What the code does

  ghost predicate PEnters(v: Variant, s: PState, t: PState, d: Descriptor, code: Cap, lr: Cap)
    requires |s.regs| == 31
  {
    var sp := s.csp.Plus(-96);
    && |t.regs| == 31 && t.csp == d.stack && t.regs[28] == Token(v, sp)
    && WordsAt(t.mem, sp.address, Words(v, sp, code, lr, s.regs))
    && SameOutside(s.mem, t.mem, sp.address, sp.address + 96)
  }

  /** The stack pointer and the code that the return pair behind a token holds. */
  function PairStack(v: Variant, mem: Cells, token: Cap): Cap {
    LoadCell(mem, if v.ByLb? then token.address + 16 else token.address)
  }

  function PairCode(v: Variant, mem: Cells, token: Cap): Cap {
    LoadCell(mem, if v.ByLb? then token.address else token.address + 16)
  }

  /** The context that a return through a token finds: the pair behind it and the rest of the frame. */
  function Found(v: Variant, mem: Cells, token: Cap): PContext {
    var sp := PairStack(v, mem, token);
    PContext(sp.Plus(96),
             if v.ByLb?
             then [LoadCell(mem, sp.address + 64), LoadCell(mem, sp.address + 80),
                   LoadCell(mem, sp.address + 32), LoadCell(mem, sp.address + 48)]
             else [LoadCell(mem, sp.address + 32), LoadCell(mem, sp.address + 64), LoadCell(mem, sp.address + 80)])
  }

  ghost predicate PLeaves(v: Variant, s: PState, t: PState)
    requires |s.regs| == |t.regs| == 31
  {
    PContextOf(v, t) == Found(v, s.mem, s.regs[28]) && t.mem == s.mem
  }

  // ---------------------------------------------------------------- Runs

  datatype PCaller = PCaller(context: PContext, words: seq<Cap>, token: Cap)

  type PFrame = Activation<PCaller>

  datatype PConfig = PConfig(s: PState, fs: seq<PFrame>)

  function Tops(descs: seq<Descriptor>): seq<Cap> { seq(|descs|, i requires 0 <= i < |descs| => descs[i].stack) }

  function Places(fs: seq<PFrame>): seq<Place> {
    seq(|fs|, i requires 0 <= i < |fs| => Place(Home(fs, i), fs[i].caller.context.csp.address, fs[i].caller.words))
  }

  /** The frame's words and token are what the entry code made of the caller's context. */
  ghost predicate FrameOk(v: Variant, f: PCaller) {
    exists code, lr, regs: seq<Cap> {:trigger Words(v, f.context.csp.Plus(-96), code, lr, regs)} ::
      && |regs| == 31 && f.words == Words(v, f.context.csp.Plus(-96), code, lr, regs)
      && f.context.saved == Saved(v, regs) && f.token == Token(v, f.context.csp.Plus(-96))
  }

  ghost predicate PInv(v: Variant, root: Stack, descs: seq<Descriptor>, c: PConfig) {
    && |c.s.regs| == 31 && (forall i :: 0 <= i < |c.fs| ==> FrameOk(v, c.fs[i].caller))
    && Intact(Stacks(root, Tops(descs)), c.s.mem, Places(c.fs), Running(c.fs))
  }

  /** What the entry code keeps of its caller. */
  function CallerOf(v: Variant, s: PState, code: Cap, lr: Cap): PCaller
    requires |s.regs| == 31
  {
    var sp := s.csp.Plus(-96);
    PCaller(PContextOf(v, s), Words(v, sp, code, lr, s.regs), Token(v, sp))
  }

  /** A call, possibly re-entrant, with room for the frame on the running stack. */
  ghost predicate PRoomCall(v: Variant, root: Stack, descs: seq<Descriptor>, c: PConfig, d: PConfig,
                            k: nat, code: Cap, lr: Cap)
  {
    && |c.s.regs| == 31 && k < |descs| && PEnters(v, c.s, d.s, descs[k], code, lr)
    && d.fs == c.fs + [Activation(k, CallerOf(v, c.s, code, lr))]
    && Running(c.fs) <= |descs|
    && var stack := Stacks(root, Tops(descs))[Running(c.fs)];
       stack.base + 96 <= c.s.csp.address <= stack.base + stack.length
  }

  /** A call into a compartment that is not active. */
  ghost predicate PCall(v: Variant, root: Stack, descs: seq<Descriptor>, c: PConfig, d: PConfig,
                        k: nat, code: Cap, lr: Cap)
  {
    PRoomCall(v, root, descs, c, d, k, code, lr) && forall i :: 0 <= i <= |c.fs| ==> Home(c.fs, i) != k + 1
  }

  /** A return from a target that preserved c28. */
  ghost predicate PReturn(v: Variant, c: PConfig, d: PConfig) {
    && c.fs != [] && |c.s.regs| == |d.s.regs| == 31
    && c.s.regs[28] == c.fs[|c.fs| - 1].caller.token
    && PLeaves(v, c.s, d.s) && d.fs == c.fs[..|c.fs| - 1]
  }

  ghost predicate PWork(root: Stack, descs: seq<Descriptor>, c: PConfig, d: PConfig) {
    && |d.s.regs| == 31 && d.fs == c.fs
    && OthersSame(Stacks(root, Tops(descs)), c.s.mem, d.s.mem, Running(c.fs))
  }

  lemma PWorkKeeps(v: Variant, root: Stack, descs: seq<Descriptor>, c: PConfig, d: PConfig)
    requires PInv(v, root, descs, c) && PWork(root, descs, c, d)
    ensures PInv(v, root, descs, d)
  {
    hide FrameOk;
    WorkKeeps(Stacks(root, Tops(descs)), c.s.mem, d.s.mem, Places(c.fs), Running(c.fs));
  }

  lemma PCallKeeps(v: Variant, root: Stack, descs: seq<Descriptor>, c: PConfig, d: PConfig, k: nat, code: Cap, lr: Cap)
    requires PInv(v, root, descs, c) && PCall(v, root, descs, c, d, k, code, lr)
    ensures PInv(v, root, descs, d)
  {
    hide Distinct, SameOutside, Stacks, WordsAt, Intact, Words, Saved, Token;
    var f := CallerOf(v, c.s, code, lr);
    assert FrameOk(v, f);
    var p := Place(Running(c.fs), c.s.csp.address, f.words);
    SaveKeeps(Stacks(root, Tops(descs)), c.s.mem, d.s.mem, Places(c.fs), p, k + 1);
    assert Places(d.fs) == Places(c.fs) + [p];
    assert forall i :: 0 <= i < |d.fs| ==> d.fs[i] == if i < |c.fs| then c.fs[i] else Activation(k, f);
  }

  /** The token points to the 32 bytes of the return pair; nobody can write, execute or open it. */
  lemma TokenMeans(v: Variant, sp: Cap)
    requires sp.address >= 0
    ensures var t := Token(v, sp);
            && t.base == t.address == sp.address && t.length == 32 && t.perms == sp.perms - {Store, Execute}
            && t.otype == (if v.ByLb? then 3 else 2)
            && (t.tag <==> sp.tag && sp.otype == 0 && sp.base <= sp.address && sp.address + 32 <= sp.base + sp.length)
  {
  }

  lemma TokenFacts(v: Variant, sp: Cap)
    ensures Token(v, sp).address == sp.address && Token(v, sp).otype == v.Otype() && Token(v, sp).Sealed()
  {
  }

  /** Does the return read word `i` of a frame? It does not read the code word and, for LPB, the inner link. */
  predicate Reads(v: Variant, i: nat) { i != CodeWord(v) && (v.ByLpb? ==> i != 3) }

  /** The word of a frame that holds the code to return to. */
  function CodeWord(v: Variant): nat { if v.ByLb? then 0 else 1 }

  predicate WordIntact(mem: Cells, f: PCaller, i: nat)
    requires i < |f.words|
  {
    LoadCell(mem, f.context.csp.address - 96 + 16 * i) == f.words[i]
  }

  predicate ReadIntact(v: Variant, mem: Cells, f: PCaller) {
    forall i :: 0 <= i < |f.words| && Reads(v, i) ==> WordIntact(mem, f, i)
  }

  /** The branch of the return: through a sealed pointer of the right type to the given code. */
  ghost predicate ReturnsTo(v: Variant, s: PState, code: Cap)
    requires |s.regs| == 31
  {
    s.regs[28].Sealed() && s.regs[28].otype == v.Otype() && PairCode(v, s.mem, s.regs[28]) == code
  }

  /**
   * A return with the caller's token resumes the caller's context exactly if the words that it reads are
   * intact, and branches to the stored code exactly if the code word is.
   */
  lemma ReturnExact(v: Variant, s: PState, t: PState, f: PCaller)
    requires |s.regs| == |t.regs| == 31 && s.regs[28] == f.token && PLeaves(v, s, t) && FrameOk(v, f)
    ensures PContextOf(v, t) == f.context <==> ReadIntact(v, s.mem, f)
    ensures |f.words| == 6 && (ReturnsTo(v, s, f.words[CodeWord(v)]) <==> WordIntact(s.mem, f, CodeWord(v)))
  {
    hide SameOutside, Token, LoadCell;
    var sp := f.context.csp.Plus(-96);
    TokenFacts(v, sp);
    var code, lr, regs: seq<Cap> :| |regs| == 31 && f.words == Words(v, sp, code, lr, regs)
      && f.context.saved == Saved(v, regs) && f.token == Token(v, sp);
    var a, w := sp.address, f.words;
    assert PContextOf(v, t).csp == f.context.csp <==> PairStack(v, s.mem, f.token) == sp by {
      assert sp.Plus(96) == f.context.csp && PContextOf(v, t).csp.Plus(-96) == PairStack(v, s.mem, f.token);
    }
    var r := PContextOf(v, t).saved;
    if v.ByLb? {
      assert Saved(v, regs) == [w[4], w[5], w[2], w[3]];
      assert r == Saved(v, regs) <==> r[0] == w[4] && r[1] == w[5] && r[2] == w[2] && r[3] == w[3];
      assert ReadIntact(v, s.mem, f) <==>
               WordIntact(s.mem, f, 1) && WordIntact(s.mem, f, 2) && WordIntact(s.mem, f, 3)
               && WordIntact(s.mem, f, 4) && WordIntact(s.mem, f, 5);
    } else {
      assert Saved(v, regs) == [w[2], w[4], w[5]];
      assert r == Saved(v, regs) <==> r[0] == w[2] && r[1] == w[4] && r[2] == w[5];
      assert ReadIntact(v, s.mem, f) <==>
               WordIntact(s.mem, f, 0) && WordIntact(s.mem, f, 2)
               && WordIntact(s.mem, f, 4) && WordIntact(s.mem, f, 5);
    }
  }

  /** So an intact frame gives back what went into it. */
  lemma FrameGivesBack(v: Variant, s: PState, t: PState, f: PCaller)
    requires |s.regs| == |t.regs| == 31 && s.regs[28] == f.token && PLeaves(v, s, t)
    requires FrameOk(v, f) && WordsAt(s.mem, f.context.csp.address - 96, f.words)
    ensures PContextOf(v, t) == f.context
    ensures |f.words| == 6 && ReturnsTo(v, s, f.words[CodeWord(v)])
  {
    hide FrameOk, PLeaves, ReturnsTo;
    ReturnExact(v, s, t, f);
    AllIntact(v, s.mem, f);
  }

  /** A return resumes the last suspended caller: stack pointer and saved registers. */
  lemma PReturnRestores(v: Variant, root: Stack, descs: seq<Descriptor>, c: PConfig, d: PConfig)
    requires PInv(v, root, descs, c) && PReturn(v, c, d)
    ensures PInv(v, root, descs, d) && PContextOf(v, d.s) == c.fs[|c.fs| - 1].caller.context
    ensures var f := c.fs[|c.fs| - 1].caller;
            |f.words| == 6 && |c.s.regs| == 31 && ReturnsTo(v, c.s, f.words[CodeWord(v)])
  {
    hide Distinct, Stacks, WordsAt, Intact, Words, Saved, Token, PairStack, LoadCell, FrameOk, ReturnsTo;
    var f := c.fs[|c.fs| - 1].caller;
    DropKeeps(Stacks(root, Tops(descs)), c.s.mem, Places(c.fs), Running(c.fs));
    assert Places(d.fs) == Places(c.fs)[..|c.fs| - 1];
    FrameLength(v, f);
    FrameGivesBack(v, c.s, d.s, f);
  }

  lemma FrameLength(v: Variant, f: PCaller)
    requires FrameOk(v, f)
    ensures |f.words| == 6
  {
  }

  ghost predicate PStep(v: Variant, root: Stack, descs: seq<Descriptor>, c: PConfig, d: PConfig) {
    || (exists k, code, lr :: PCall(v, root, descs, c, d, k, code, lr))
    || PReturn(v, c, d) || PWork(root, descs, c, d)
  }

  ghost predicate PRun(v: Variant, root: Stack, descs: seq<Descriptor>, h: seq<PConfig>) {
    h != [] && PInv(v, root, descs, h[0]) && forall i :: 0 <= i < |h| - 1 ==> PStep(v, root, descs, h[i], h[i + 1])
  }

  function PAbstract(v: Variant, c: PConfig): CallStack.Machine<PContext>
    requires |c.s.regs| == 31
  {
    CallStack.Machine(PContextOf(v, c.s), seq(|c.fs|, i requires 0 <= i < |c.fs| => c.fs[i].caller.context))
  }

  /** Every step keeps the invariant and is a step of the abstract call stack, of the same kind. */
  lemma PStepRefines(v: Variant, root: Stack, descs: seq<Descriptor>, c: PConfig, d: PConfig)
    requires PInv(v, root, descs, c) && PStep(v, root, descs, c, d)
    ensures PInv(v, root, descs, d) && |c.s.regs| == |d.s.regs| == 31
    ensures PReturn(v, c, d) ==> CallStack.Returns(PAbstract(v, c), PAbstract(v, d))
    ensures (exists k, code, lr :: PCall(v, root, descs, c, d, k, code, lr)) ==>
              CallStack.Calls(PAbstract(v, c), PAbstract(v, d))
    ensures CallStack.Step(PAbstract(v, c), PAbstract(v, d))
  {
    hide Intact, Words, Saved, Token, PLeaves, PEnters, FrameOk, OthersSame, Stacks;
    if PReturn(v, c, d) {
      PReturnRestores(v, root, descs, c, d);
      assert PAbstract(v, d).callers == PAbstract(v, c).callers[..|c.fs| - 1];
    } else if PWork(root, descs, c, d) {
      PWorkKeeps(v, root, descs, c, d);
    }
    if k, code, lr :| PCall(v, root, descs, c, d, k, code, lr) {
      PCallKeeps(v, root, descs, c, d, k, code, lr);
      assert PAbstract(v, d).callers == PAbstract(v, c).callers + [PContextOf(v, c.s)];
    }
  }

  lemma {:induction false} PRunKeeps(v: Variant, root: Stack, descs: seq<Descriptor>, h: seq<PConfig>, i: nat)
    requires PRun(v, root, descs, h) && i < |h|
    ensures PInv(v, root, descs, h[i]) && |h[i].s.regs| == 31
  {
    hide PInv, PStep;
    if i > 0 {
      PRunKeeps(v, root, descs, h, i - 1);
      PStepRefines(v, root, descs, h[i - 1], h[i]);
    } else {
      PInvRegs(v, root, descs, h[0]);
    }
  }

  lemma PInvRegs(v: Variant, root: Stack, descs: seq<Descriptor>, c: PConfig)
    requires PInv(v, root, descs, c)
    ensures |c.s.regs| == 31
  {
  }

  /** A run that starts with a call and ends with the return that matches it. */
  ghost predicate PWholeCall(v: Variant, root: Stack, descs: seq<Descriptor>, h: seq<PConfig>,
                             k: nat, code: Cap, lr: Cap)
  {
    && PRun(v, root, descs, h) && |h| >= 3
    && PCall(v, root, descs, h[0], h[1], k, code, lr)
    && PReturn(v, h[|h| - 2], h[|h| - 1])
    && |h[|h| - 1].fs| == |h[0].fs|
    && forall j :: 0 < j < |h| - 1 ==> |h[j].fs| > |h[0].fs|
  }

  /**
   * Over every non-re-entrant run between a call and its matching return the caller's context comes back,
   * and the return takes the code that the call stored.
   */
  lemma PWholeCallRestores(v: Variant, root: Stack, descs: seq<Descriptor>, h: seq<PConfig>,
                           k: nat, code: Cap, lr: Cap)
    requires PWholeCall(v, root, descs, h, k, code, lr)
    ensures |h[0].s.regs| == |h[|h| - 2].s.regs| == |h[|h| - 1].s.regs| == 31
    ensures PContextOf(v, h[|h| - 1].s) == PContextOf(v, h[0].s)
    ensures h[|h| - 1].s.csp == h[0].s.csp
    ensures forall r :: (if v.ByLb? then 27 else 28) <= r <= 30 ==> h[|h| - 1].s.regs[r] == h[0].s.regs[r]
    ensures ReturnsTo(v, h[|h| - 2].s, code)
  {
    CallIsStep(v, root, descs, h[0], h[1], k, code, lr);
    PWholeCallFrames(v, root, descs, h, k, code, lr);
    PRunKeeps(v, root, descs, h, |h| - 2);
    hide PInv, PRun, PCall, PContextOf, PLeaves, ReturnsTo;
    PReturnRestores(v, root, descs, h[|h| - 2], h[|h| - 1]);
    SameContext(v, h[|h| - 1].s, h[0].s);
  }

  lemma CallIsStep(v: Variant, root: Stack, descs: seq<Descriptor>, c: PConfig, d: PConfig, k: nat, code: Cap, lr: Cap)
    requires PCall(v, root, descs, c, d, k, code, lr)
    ensures |c.s.regs| == 31 && |d.fs| == |c.fs| + 1 && d.fs[|c.fs|].caller == CallerOf(v, c.s, code, lr)
    ensures CallerOf(v, c.s, code, lr).words[CodeWord(v)] == code
    ensures CallerOf(v, c.s, code, lr).context == PContextOf(v, c.s)
  {
    hide PEnters;
  }

  lemma PWholeCallFrames(v: Variant, root: Stack, descs: seq<Descriptor>, h: seq<PConfig>, k: nat, code: Cap, lr: Cap)
    requires PWholeCall(v, root, descs, h, k, code, lr)
    ensures h[|h| - 2].fs == h[1].fs
  {
    hide PInv, PCall, PReturn, PStep;
    var g := seq(|h|, i requires 0 <= i < |h| => h[i].fs);
    forall i | 0 <= i < |h| - 1
      ensures CallStack.Nests(g[i], g[i + 1])
    {
      PStepNests(v, root, descs, h[i], h[i + 1]);
    }
    CallStack.MatchingFrames(g);
  }

  lemma PStepNests(v: Variant, root: Stack, descs: seq<Descriptor>, c: PConfig, d: PConfig)
    requires PStep(v, root, descs, c, d)
    ensures CallStack.Nests(c.fs, d.fs)
  {
    hide PEnters, PLeaves, CallerOf, Stacks, OthersSame;
  }

  /** The switch code is one piece of code: every call of a run stores the same sentry. */
  ghost predicate ExitStep(v: Variant, root: Stack, descs: seq<Descriptor>, exit: Cap, c: PConfig, d: PConfig) {
    || (exists k, lr :: PCall(v, root, descs, c, d, k, exit, lr))
    || PReturn(v, c, d) || PWork(root, descs, c, d)
  }

  /** A run from the start, when no call is active. */
  ghost predicate ExitRun(v: Variant, root: Stack, descs: seq<Descriptor>, exit: Cap, h: seq<PConfig>) {
    && h != [] && PInv(v, root, descs, h[0]) && h[0].fs == []
    && forall i :: 0 <= i < |h| - 1 ==> ExitStep(v, root, descs, exit, h[i], h[i + 1])
  }

  predicate AllStore(v: Variant, fs: seq<PFrame>, exit: Cap) {
    forall n :: 0 <= n < |fs| ==> var w := fs[n].caller.words; |w| == 6 && w[CodeWord(v)] == exit
  }

  lemma ExitStepKeeps(v: Variant, root: Stack, descs: seq<Descriptor>, exit: Cap, c: PConfig, d: PConfig)
    requires ExitStep(v, root, descs, exit, c, d) && AllStore(v, c.fs, exit)
    ensures AllStore(v, d.fs, exit) && PStep(v, root, descs, c, d)
  {
    hide PEnters, PLeaves, OthersSame, Stacks;
  }

  lemma {:induction false} ExitStored(v: Variant, root: Stack, descs: seq<Descriptor>, exit: Cap,
                                      h: seq<PConfig>, i: nat)
    requires ExitRun(v, root, descs, exit, h) && i < |h|
    ensures AllStore(v, h[i].fs, exit) && PInv(v, root, descs, h[i])
  {
    hide PInv, ExitStep, PStep;
    if i > 0 {
      ExitStored(v, root, descs, exit, h, i - 1);
      ExitStepKeeps(v, root, descs, exit, h[i - 1], h[i]);
      PStepRefines(v, root, descs, h[i - 1], h[i]);
    }
  }

  /** At every return of such a run c28 is sealed and leads to that sentry, as the exit code needs it. */
  lemma ExitFound(v: Variant, root: Stack, descs: seq<Descriptor>, exit: Cap, h: seq<PConfig>, i: nat)
    requires ExitRun(v, root, descs, exit, h) && i < |h| - 1 && PReturn(v, h[i], h[i + 1])
    ensures |h[i].s.regs| == 31 && ReturnsTo(v, h[i].s, exit)
  {
    hide PInv, PLeaves, ReturnsTo, ExitStep;
    ExitStored(v, root, descs, exit, h, i);
    PReturnRestores(v, root, descs, h[i], h[i + 1]);
  }

  // ---------------------------------------------------------------- Re-entry

  ghost predicate POwnStep(v: Variant, root: Stack, descs: seq<Descriptor>, c: PConfig, d: PConfig) {
    || (exists k, code, lr :: PRoomCall(v, root, descs, c, d, k, code, lr))
    || PReturn(v, c, d) || PWork(root, descs, c, d)
  }

  /** A whole call in a run in which active compartments may be entered again. */
  ghost predicate POwnWholeCall(v: Variant, root: Stack, descs: seq<Descriptor>, h: seq<PConfig>,
                                k: nat, code: Cap, lr: Cap)
  {
    && |h| >= 3 && PRoomCall(v, root, descs, h[0], h[1], k, code, lr) && PReturn(v, h[|h| - 2], h[|h| - 1])
    && (forall i :: 0 <= i < |h| - 1 ==> POwnStep(v, root, descs, h[i], h[i + 1]))
    && |h[|h| - 1].fs| == |h[0].fs|
    && forall i :: 0 < i < |h| - 1 ==> |h[i].fs| > |h[0].fs|
  }

  lemma POwnStepIsLocal(v: Variant, root: Stack, descs: seq<Descriptor>, c: PConfig, d: PConfig)
    requires Distinct(Stacks(root, Tops(descs))) && POwnStep(v, root, descs, c, d)
    ensures OthersSame(Stacks(root, Tops(descs)), c.s.mem, d.s.mem, Running(c.fs))
  {
    hide Distinct, Stacks, SameOutside, WordsAt, OthersSame, Token;
    if k, code, lr :| PRoomCall(v, root, descs, c, d, k, code, lr) {
      var p := Place(Running(c.fs), c.s.csp.address, CallerOf(v, c.s, code, lr).words);
      SaveIsLocal(Stacks(root, Tops(descs)), c.s.mem, d.s.mem, p);
    } else if PReturn(v, c, d) {
      NothingChanged(Stacks(root, Tops(descs)), c.s.mem, Running(c.fs));
    }
  }

  /** Where the entry code puts the frame of a caller. */
  function PPlace(c: PConfig, f: PCaller): Place { Place(Running(c.fs), c.s.csp.address, f.words) }

  lemma PCallStores(v: Variant, root: Stack, descs: seq<Descriptor>, c: PConfig, d: PConfig, k: nat, code: Cap, lr: Cap)
    requires PRoomCall(v, root, descs, c, d, k, code, lr)
    ensures |c.s.regs| == 31
    ensures var f := CallerOf(v, c.s, code, lr);
            && FrameOk(v, f) && |f.words| == 6 && f.words[CodeWord(v)] == code
            && d.fs == c.fs + [Activation(k, f)] && f.context == PContextOf(v, c.s)
            && PPlace(c, f).Bottom() == f.context.csp.address - 96
            && PPlace(c, f).home <= |descs| && PPlace(c, f).Fits(Stacks(root, Tops(descs))[PPlace(c, f).home])
            && WordsAt(d.s.mem, PPlace(c, f).Bottom(), f.words)
  {
    hide Stacks, SameOutside, WordsAt, Token;
  }

  lemma POwnStepNests(v: Variant, root: Stack, descs: seq<Descriptor>, c: PConfig, d: PConfig)
    requires POwnStep(v, root, descs, c, d)
    ensures CallStack.Nests(c.fs, d.fs)
  {
    hide PEnters, PLeaves, CallerOf, Stacks, OthersSame;
  }

  lemma POwnWholeCallFrames(v: Variant, root: Stack, descs: seq<Descriptor>, h: seq<PConfig>,
                            k: nat, code: Cap, lr: Cap)
    requires POwnWholeCall(v, root, descs, h, k, code, lr)
    ensures h[|h| - 2].fs == h[1].fs
  {
    hide POwnStep, PReturn, PRoomCall;
    var g := seq(|h|, i requires 0 <= i < |h| => h[i].fs);
    forall i | 0 <= i < |h| - 1
      ensures CallStack.Nests(g[i], g[i + 1])
    {
      POwnStepNests(v, root, descs, h[i], h[i + 1]);
    }
    CallStack.MatchingFrames(g);
  }

  /**
   * Over a whole call, whatever is entered again meanwhile, the caller's context comes back exactly if the
   * words that the return reads are intact by then, and the return takes the stored code exactly if the
   * code word is.
   */
  lemma ReentrantCallExact(v: Variant, root: Stack, descs: seq<Descriptor>, h: seq<PConfig>,
                           k: nat, code: Cap, lr: Cap)
    requires POwnWholeCall(v, root, descs, h, k, code, lr)
    ensures |h[0].s.regs| == |h[|h| - 2].s.regs| == |h[|h| - 1].s.regs| == 31
    ensures var f, back := CallerOf(v, h[0].s, code, lr), h[|h| - 2].s;
            && (PContextOf(v, h[|h| - 1].s) == PContextOf(v, h[0].s) <==> ReadIntact(v, back.mem, f))
            && |f.words| == 6 && (ReturnsTo(v, back, code) <==> WordIntact(back.mem, f, CodeWord(v)))
  {
    var m := |h| - 2;
    POwnWholeCallFrames(v, root, descs, h, k, code, lr);
    PCallStores(v, root, descs, h[0], h[1], k, code, lr);
    hide POwnStep, PRoomCall, WordsAt, Stacks, FrameOk, PLeaves, ReadIntact, ReturnsTo, WordIntact, CallerOf;
    ReturnExact(v, h[m].s, h[m + 1].s, CallerOf(v, h[0].s, code, lr));
  }

  /** The caller's frame stays intact while nothing runs on its stack. */
  lemma {:induction false} PFrameUndisturbed(v: Variant, root: Stack, descs: seq<Descriptor>, h: seq<PConfig>,
                                             k: nat, code: Cap, lr: Cap, i: nat)
    requires 0 < i < |h| && Distinct(Stacks(root, Tops(descs)))
    requires PRoomCall(v, root, descs, h[0], h[1], k, code, lr)
    requires forall j :: 0 <= j < i ==> POwnStep(v, root, descs, h[j], h[j + 1])
    requires forall j :: 0 < j < i ==> Running(h[j].fs) != Running(h[0].fs)
    ensures |h[0].s.regs| == 31
    ensures var f := CallerOf(v, h[0].s, code, lr);
            |f.words| == 6 && WordsAt(h[i].s.mem, f.context.csp.address - 96, f.words)
  {
    PCallStores(v, root, descs, h[0], h[1], k, code, lr);
    hide POwnStep, PRoomCall, Distinct, WordsAt, Stacks, FrameOk, OthersSame, Place.Fits, CallerOf;
    if i > 1 {
      PFrameUndisturbed(v, root, descs, h, k, code, lr, i - 1);
      POwnStepIsLocal(v, root, descs, h[i - 1], h[i]);
      var p := PPlace(h[0], CallerOf(v, h[0].s, code, lr));
      PlaceKept(Stacks(root, Tops(descs)), h[i - 1].s.mem, h[i].s.mem, Running(h[i - 1].fs), p);
    }
  }

  /**
   * In particular both hold if nothing runs on the caller's stack in between. All other compartments may be
   * entered any number of times, active or not.
   */
  lemma UndisturbedCallRestores(v: Variant, root: Stack, descs: seq<Descriptor>, h: seq<PConfig>,
                                k: nat, code: Cap, lr: Cap)
    requires POwnWholeCall(v, root, descs, h, k, code, lr) && Distinct(Stacks(root, Tops(descs)))
    requires forall i :: 0 < i < |h| - 1 ==> Running(h[i].fs) != Running(h[0].fs)
    ensures |h[0].s.regs| == |h[|h| - 2].s.regs| == |h[|h| - 1].s.regs| == 31
    ensures PContextOf(v, h[|h| - 1].s) == PContextOf(v, h[0].s)
    ensures h[|h| - 1].s.csp == h[0].s.csp
    ensures forall r :: (if v.ByLb? then 27 else 28) <= r <= 30 ==> h[|h| - 1].s.regs[r] == h[0].s.regs[r]
    ensures ReturnsTo(v, h[|h| - 2].s, code)
  {
    hide POwnStep, PRoomCall, PReturn, Distinct, Stacks, ReturnsTo, WordsAt, CallerOf, ReadIntact, WordIntact;
    hide PContextOf;
    ReentrantCallExact(v, root, descs, h, k, code, lr);
    PFrameUndisturbed(v, root, descs, h, k, code, lr, |h| - 2);
    hide POwnWholeCall;
    AllIntact(v, h[|h| - 2].s.mem, CallerOf(v, h[0].s, code, lr));
    SameContext(v, h[|h| - 1].s, h[0].s);
  }

  lemma AllIntact(v: Variant, mem: Cells, f: PCaller)
    requires |f.words| == 6 && WordsAt(mem, f.context.csp.address - 96, f.words)
    ensures ReadIntact(v, mem, f) && WordIntact(mem, f, CodeWord(v))
  {
  }

  /** Right after a call the token leads back to where the call came from. */
  lemma JustCalled(v: Variant, s: PState, t: PState, d: Descriptor, code: Cap, lr: Cap)
    requires |s.regs| == 31 && PEnters(v, s, t, d, code, lr)
    ensures var token := Token(v, s.csp.Plus(-96));
            && token.otype == v.Otype() && token.Sealed()
            && PairCode(v, t.mem, token) == code && Found(v, t.mem, token) == PContextOf(v, s)
  {
    hide LoadCell, SameOutside;
    var a, w := s.csp.address - 96, Words(v, s.csp.Plus(-96), code, lr, s.regs);
    assert LoadCell(t.mem, a + 16 * 0) == w[0] && LoadCell(t.mem, a + 16 * 1) == w[1];
    assert LoadCell(t.mem, a + 16 * 2) == w[2] && LoadCell(t.mem, a + 16 * 3) == w[3];
    assert LoadCell(t.mem, a + 16 * 4) == w[4] && LoadCell(t.mem, a + 16 * 5) == w[5];
    assert s.csp.Plus(-96).Plus(96) == s.csp;
  }

  /**
   * What goes wrong otherwise: a second activation of a compartment that calls out from the same stack
   * pointer as the first one puts its frame in the place of the first one's. The return to the first
   * activation then resumes the context of the second, which is right exactly if they saved the same.
   */
  lemma ReentryMixesCallers(v: Variant, first: PState, second: PState, t: PState, d: Descriptor, code: Cap, lr: Cap,
                            back: PState, resumed: PState)
    requires |first.regs| == |second.regs| == |back.regs| == |resumed.regs| == 31
    requires first.csp == second.csp && PEnters(v, second, t, d, code, lr)
    requires forall i :: 0 <= i < 6 ==>
               LoadCell(back.mem, first.csp.address - 96 + 16 * i) == LoadCell(t.mem, first.csp.address - 96 + 16 * i)
    requires back.regs[28] == Token(v, first.csp.Plus(-96)) && PLeaves(v, back, resumed)
    ensures PContextOf(v, resumed) == PContextOf(v, second)
    ensures PContextOf(v, resumed) == PContextOf(v, first) <==> Saved(v, first.regs) == Saved(v, second.regs)
  {
    hide Token, PLeaves;
    var f := CallerOf(v, second, code, lr);
    assert FrameOk(v, f);
    FrameGivesBack(v, back, resumed, f);
  }

  // ---------------------------------------------------------------- The code

  lemma SixStored(before: Cells, after: Cells, a: int, w: seq<Cap>)
    requires |w| == 6
    requires (after == StorePair(StorePair(StorePair(before, a + 32, w[2], w[3]), a + 64, w[4], w[5]), a, w[0], w[1]))
             || after == StorePair(StorePair(StorePair(before, a + 64, w[4], w[5]), a + 32, w[2], w[3]), a, w[0], w[1])
    ensures WordsAt(after, a, w) && SameOutside(before, after, a, a + 96)
  {
  }

  lemma LbWords(sp: Cap, code: Cap, lr: Cap, regs: seq<Cap>)
    requires |regs| == 31
    ensures Words(ByLb, sp, code, lr, regs) == [code, sp, regs[29], regs[30], regs[27], regs[28]]
  {
  }

  lemma LpbWords(sp: Cap, code: Cap, lr: Cap, regs: seq<Cap>)
    requires |regs| == 31
    ensures Words(ByLpb, sp, code, lr, regs) == [sp, code, regs[28], lr, regs[29], regs[30]]
  {
  }

  lemma SavedAre(v: Variant, regs: seq<Cap>)
    requires |regs| == 31
    ensures Saved(v, regs) ==
            if v.ByLb? then [regs[27], regs[28], regs[29], regs[30]] else [regs[28], regs[29], regs[30]]
  {
  }

  class Lb {
    const descs: seq<Descriptor>
    /** `desc->exit`, the same for all descriptors. */
    const exit: Cap

    var csp: Cap
    var c: seq<Cap>
    var mem: Cells

    ghost function Snapshot(): PState
      reads this
    {
      PState(csp, c, mem)
    }

    constructor (descs: seq<Descriptor>, exit: Cap, root: Cap, regs: seq<Cap>)
      ensures this.descs == descs && this.exit == exit && Snapshot() == PState(root, regs, map[])
    {
      this.descs, this.exit, csp, c, mem := descs, exit, root, regs, map[];
    }

    /** `cmpt_call` pushes c27 to c30 and leaves room for the return pair. */
    method SaveFrame()
      requires |c| == 31
      modifies this`csp, this`mem
      ensures csp == old(csp).Plus(-96)
      ensures mem == StorePair(StorePair(old(mem), csp.address + 32, c[29], c[30]), csp.address + 64, c[27], c[28])
    {
      csp := csp.Plus(-96);
      mem := StorePair(mem, csp.address + 32, c[29], c[30]);
      mem := StorePair(mem, csp.address + 64, c[27], c[28]);
    }

    /** `cmpt_call` and `cmpt_entry` up to the call of the target of descriptor `k`. */
    method Enter(k: nat, link: Cap) returns (pc: Cap)
      requires |c| == 31 && k < |descs|
      modifies this
      ensures PEnters(ByLb, old(Snapshot()), Snapshot(), descs[k], exit, NULL)
      ensures csp == descs[k].stack && c[28] == Token(ByLb, old(csp).Plus(-96))
      ensures pc == descs[k].target && c[0] == old(c[1]) && c[30] == link && c[1..27] == old(c)[1..27]
    {
      hide WordsAt, SameOutside, Words, StorePair, Cap.SetBounds, Cap.PermsClear, Cap.SealAs;
      ghost var before, regs := mem, c;
      SaveFrame();
      c := c[29 := c[0]];
      c := c[30 := descs[k].target];
      c := c[27 := exit][29 := descs[k].stack];
      c := c[28 := csp];
      mem := StorePair(mem, csp.address, c[27], c[28]);
      LbWords(csp, exit, NULL, regs);
      SixStored(before, mem, csp.address, Words(ByLb, csp, exit, NULL, regs));
      c := c[28 := c[28].SetBounds(32)];
      c := c[28 := c[28].PermsClear({Store, Execute})];
      c := c[28 := c[28].SealAs(LB)];
      csp := c[29];
      c := c[0 := c[1]];
      pc := c[30];
      c := c[30 := link];
    }

    /** After the target: aborts unless c28 is sealed, otherwise `cmpt_return`. */
    method Leave() returns (aborted: bool, pc: Cap)
      requires |c| == 31
      requires c[28].Sealed() ==> ReturnsTo(ByLb, Snapshot(), exit)
      modifies this
      ensures |c| == 31 && (aborted <==> !old(c[28]).Sealed()) && (aborted ==> Snapshot() == old(Snapshot()))
      ensures !aborted ==> PLeaves(ByLb, old(Snapshot()), Snapshot()) && pc == c[30] && c[..27] == old(c)[..27]
    {
      aborted, pc := !c[28].Sealed(), NULL;
      if aborted {
        return;
      }
      c := c[29 := c[28]];
      c := c[29 := c[29].Unsealed()];
      c := c[29 := LoadCell(mem, c[29].address + 16)];
      csp := c[29];
      c := c[27 := LoadCell(mem, csp.address + 64)][28 := LoadCell(mem, csp.address + 80)];
      c := c[29 := LoadCell(mem, csp.address + 32)][30 := LoadCell(mem, csp.address + 48)];
      csp := csp.Plus(96);
      pc := c[30];
      SavedAre(ByLb, c);
    }
  }

  class Lpb {
    const descs: seq<Descriptor>
    /** The sealed address of the code after the branch to the target. */
    const back: Cap

    var csp: Cap
    var c: seq<Cap>
    var mem: Cells

    ghost function Snapshot(): PState
      reads this
    {
      PState(csp, c, mem)
    }

    constructor (descs: seq<Descriptor>, back: Cap, root: Cap, regs: seq<Cap>)
      ensures this.descs == descs && this.back == back && Snapshot() == PState(root, regs, map[])
    {
      this.descs, this.back, csp, c, mem := descs, back, root, regs, map[];
    }

    /** `cmpt_call` and `cmpt_switch` up to the call of the target of descriptor `k`. */
    method Enter(k: nat, inner: Cap, link: Cap) returns (pc: Cap)
      requires |c| == 31 && k < |descs|
      modifies this
      ensures PEnters(ByLpb, old(Snapshot()), Snapshot(), descs[k], back, inner)
      ensures csp == descs[k].stack && c[28] == Token(ByLpb, old(csp).Plus(-96))
      ensures pc == descs[k].target && c[0] == old(c[1]) && c[30] == link && c[1..9] == old(c)[1..9]
    {
      hide WordsAt, SameOutside, Words, StorePair, Cap.SetBounds, Cap.PermsClear, Cap.SealAs;
      ghost var before, regs := mem, c;
      csp := csp.Plus(-32);
      mem := StorePair(mem, csp.address, c[29], c[30]);
      c := c[30 := inner];
      csp := csp.Plus(-64);
      mem := StorePair(mem, csp.address + 32, c[28], c[30]);
      c := c[9 := back];
      c := c[28 := csp];
      mem := StorePair(mem, csp.address, c[28], c[9]);
      LpbWords(csp, back, inner, regs);
      SixStored(before, mem, csp.address, Words(ByLpb, csp, back, inner, regs));
      c := c[28 := c[28].SetBounds(32)];
      c := c[28 := c[28].PermsClear({Store, Execute})];
      c := c[28 := c[28].SealAs(LPB)];
      c := c[29 := descs[k].stack][30 := descs[k].target];
      csp := c[29];
      c := c[0 := c[1]];
      pc := c[30];
      c := c[30 := link];
    }

    /** After the target: aborts unless c28 is sealed, otherwise back through both frames. */
    method Leave() returns (aborted: bool, pc: Cap)
      requires |c| == 31
      requires c[28].Sealed() ==> ReturnsTo(ByLpb, Snapshot(), back)
      modifies this
      ensures |c| == 31 && (aborted <==> !old(c[28]).Sealed()) && (aborted ==> Snapshot() == old(Snapshot()))
      ensures !aborted ==> PLeaves(ByLpb, old(Snapshot()), Snapshot()) && pc == c[30] && c[..28] == old(c)[..28]
    {
      aborted, pc := !c[28].Sealed(), NULL;
      if aborted {
        return;
      }
      c := c[29 := LoadCell(mem, c[28].address)];
      csp := c[29];
      c := c[28 := LoadCell(mem, csp.address + 32)][30 := LoadCell(mem, csp.address + 48)];
      csp := csp.Plus(64);
      c := c[29 := LoadCell(mem, csp.address)][30 := LoadCell(mem, csp.address + 16)];
      csp := csp.Plus(32);
      pc := c[30];
      SavedAre(ByLpb, c);
    }
  }

  /**
   * A compartment that calls itself twice in a row. Its first activation was entered with the sealed
   * pointer to the root's frame in c28; after its call it holds the pointer to its own second frame.
   */
  method LbReentry(desc: Descriptor, exit: Cap, root: Cap, regs: seq<Cap>) returns (entered: Cap, after: Cap)
    requires |regs| == 31
    ensures entered == Token(ByLb, root.Plus(-96)) && after == Token(ByLb, desc.stack.Plus(-96))
    ensures root.address != desc.stack.address ==> after != entered
  {
    var t := new Lb([desc], exit, root, regs);
    var pc := t.Enter(0, NULL);
    entered := t.c[28];
    pc := t.Enter(0, NULL);
    ghost var second := t.Snapshot();
    pc := t.Enter(0, NULL);
    JustCalled(ByLb, second, t.Snapshot(), desc, exit, NULL);
    hide WordsAt, SameOutside, Token, Found;
    var aborted;
    aborted, pc := t.Leave();
    SavedToken(ByLb, t.c, second.regs);
    aborted, pc := t.Leave();
    SavedToken(ByLb, t.c, second.regs);
    after := t.c[28];
  }

  /** The same for the load-pair variant. */
  method LpbReentry(desc: Descriptor, back: Cap, root: Cap, regs: seq<Cap>) returns (entered: Cap, after: Cap)
    requires |regs| == 31
    ensures entered == Token(ByLpb, root.Plus(-96)) && after == Token(ByLpb, desc.stack.Plus(-96))
    ensures root.address != desc.stack.address ==> after != entered
  {
    var t := new Lpb([desc], back, root, regs);
    var pc := t.Enter(0, NULL, NULL);
    entered := t.c[28];
    pc := t.Enter(0, NULL, NULL);
    ghost var second := t.Snapshot();
    pc := t.Enter(0, NULL, NULL);
    JustCalled(ByLpb, second, t.Snapshot(), desc, back, NULL);
    hide WordsAt, SameOutside, Token, Found;
    var aborted;
    aborted, pc := t.Leave();
    SavedToken(ByLpb, t.c, second.regs);
    aborted, pc := t.Leave();
    SavedToken(ByLpb, t.c, second.regs);
    after := t.c[28];
  }

  lemma SavedToken(v: Variant, x: seq<Cap>, y: seq<Cap>)
    requires |x| == |y| == 31 && Saved(v, x) == Saved(v, y)
    ensures x[28] == y[28]
  {
    assert v.ByLb? ==> Saved(v, x)[1] == x[28] && Saved(v, y)[1] == y[28];
    assert v.ByLpb? ==> Saved(v, x)[0] == x[28] && Saved(v, y)[0] == y[28];
  }
}
