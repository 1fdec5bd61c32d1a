/**
 * The switch between restricted and executive mode of `src/restricted/src/start.S`: the thunk saves
 * registers on the caller's restricted stack, the executive switch saves the caller's stack pointer,
 * thread pointer and compartment ID on a stack that restricted code cannot reach. The descriptor of a
 * compartment is never written, so every entry starts at the top of the compartment's stack.
 */
module Restricted {
  import opened Capability
  import opened SwapSwitch
  import opened Bsp
  import opened OwnStacks
  import CallStack

  /** `thunk_data_t` */
  datatype ThunkData = ThunkData(exec: Cap, target: Cap, tp: Cap, sp: Cap, cid: Cap)

  /** Restricted registers, executive stack (lowest address first), and restricted memory. */
  datatype RState = RState(rcsp: Cap, rctpidr: Cap, cid: Cap, regs: seq<Cap>, mem: Cells, estack: seq<Cap>)

  /** What the executive switch gives back in every case. */
  datatype Banked = Banked(rcsp: Cap, rctpidr: Cap, cid: Cap)

  function BankedOf(s: RState): Banked { Banked(s.rcsp, s.rctpidr, s.cid) }

  /** A suspended caller: its banked registers, c19 to c30, and the return link. */
  datatype RCaller = RCaller(banked: Banked, saved: seq<Cap>, link: Cap)

  type RFrame = Activation<RCaller>

  /** Two 32-byte frames for every suspended caller. */
  function Encode(fs: seq<RFrame>): seq<Cap> {
    if fs == [] then []
    else
      var f := fs[|fs| - 1].caller;
      [f.link, f.banked.cid, f.banked.rctpidr, f.banked.rcsp.Plus(-192)] + Encode(fs[..|fs| - 1])
  }

  datatype RConfig = RConfig(s: RState, fs: seq<RFrame>)

  // ---------------------------------------------------------------- What thunk and switch do

  ghost predicate REnters(s: RState, t: RState, d: ThunkData, link: Cap)
    requires |s.regs| == 31
  {
    && t.rcsp == d.sp && t.rctpidr == d.tp && t.cid == d.cid && |t.regs| == 31
    && t.estack == [link, s.cid, s.rctpidr, s.rcsp.Plus(-192)] + s.estack
    && WordsAt(t.mem, s.rcsp.address - 192, SavedRegs(BSP, s.regs))
    && SameOutside(s.mem, t.mem, s.rcsp.address - 192, s.rcsp.address)
  }

  /** The return reads nothing but the executive stack and the frame that the thunk left behind. */
  ghost predicate RLeaves(s: RState, t: RState)
    requires |t.regs| == 31
  {
    && |s.estack| >= 4 && t.estack == s.estack[4..]
    && t.cid == s.estack[1] && t.rctpidr == s.estack[2] && t.rcsp == s.estack[3].Plus(192)
    && t.mem == s.mem && WordsAt(s.mem, s.estack[3].address, SavedRegs(BSP, t.regs))
  }

  ghost predicate RCall(descs: seq<ThunkData>, c: RConfig, d: RConfig, k: nat, link: Cap) {
    && |c.s.regs| == 31 && k < |descs| && REnters(c.s, d.s, descs[k], link)
    && d.fs == c.fs + [Activation(k, RCaller(BankedOf(c.s), SavedRegs(BSP, c.s.regs), link))]
  }

  ghost predicate RReturn(c: RConfig, d: RConfig) {
    && c.fs != [] && |d.s.regs| == 31 && RLeaves(c.s, d.s) && d.fs == c.fs[..|c.fs| - 1]
  }

  /** Restricted code may change all its registers and any memory, but not the executive stack. */
  ghost predicate RWork(c: RConfig, d: RConfig) {
    && |d.s.regs| == 31 && d.s.estack == c.s.estack && d.fs == c.fs
  }

  ghost predicate RStep(descs: seq<ThunkData>, c: RConfig, d: RConfig) {
    (exists k, link :: RCall(descs, c, d, k, link)) || RReturn(c, d) || RWork(c, d)
  }

  // ---------------------------------------------------------------- All runs, re-entry included

  ghost predicate RInv(c: RConfig) {
    && |c.s.regs| == 31 && c.s.estack == Encode(c.fs)
    && forall i :: 0 <= i < |c.fs| ==> |c.fs[i].caller.saved| == 12
  }

  lemma RCallKeeps(descs: seq<ThunkData>, c: RConfig, d: RConfig, k: nat, link: Cap)
    requires RInv(c) && RCall(descs, c, d, k, link)
    ensures RInv(d)
  {
    assert d.fs[..|d.fs| - 1] == c.fs;
  }

  /**
   * A return resumes the caller's banked registers, whatever the target left in them. The other saved
   * registers come back exactly if the frame on the caller's restricted stack is still intact.
   */
  lemma RReturnRestores(c: RConfig, d: RConfig)
    requires RInv(c) && RReturn(c, d)
    ensures RInv(d) && BankedOf(d.s) == c.fs[|c.fs| - 1].caller.banked
    ensures var f := c.fs[|c.fs| - 1].caller;
            && BSP.Valid()
            && (SavedRegs(BSP, d.s.regs) == f.saved <==> WordsAt(c.s.mem, f.banked.rcsp.address - 192, f.saved))
  {
    var f := c.fs[|c.fs| - 1].caller;
    BspValid();
    assert c.s.estack[4..] == Encode(d.fs);
    assert f.banked.rcsp.Plus(-192).Plus(192) == f.banked.rcsp;
    SameWords(c.s.mem, f.banked.rcsp.address - 192, SavedRegs(BSP, d.s.regs), f.saved);
  }

  lemma SameWords(mem: Cells, a: int, v: seq<Cap>, w: seq<Cap>)
    requires WordsAt(mem, a, v) && |v| == |w|
    ensures v == w <==> WordsAt(mem, a, w)
  {
    if WordsAt(mem, a, w) {
      assert forall i :: 0 <= i < |v| ==> LoadCell(mem, a + 16 * i) == v[i];
    }
  }

  ghost predicate RRun(descs: seq<ThunkData>, h: seq<RConfig>) {
    h != [] && RInv(h[0]) && forall i :: 0 <= i < |h| - 1 ==> RStep(descs, h[i], h[i + 1])
  }

  lemma RStepKeeps(descs: seq<ThunkData>, c: RConfig, d: RConfig)
    requires RInv(c) && RStep(descs, c, d)
    ensures RInv(d)
  {
    if RReturn(c, d) {
      RReturnRestores(c, d);
    } else if k, link :| RCall(descs, c, d, k, link) {
      RCallKeeps(descs, c, d, k, link);
    }
  }

  lemma {:induction false} RRunKeeps(descs: seq<ThunkData>, h: seq<RConfig>, i: nat)
    requires RRun(descs, h) && i < |h|
    ensures RInv(h[i])
  {
    if i > 0 {
      RRunKeeps(descs, h, i - 1);
      assert RStep(descs, h[i - 1], h[i]);
      RStepKeeps(descs, h[i - 1], h[i]);
    }
  }

  function RAbstract(c: RConfig): CallStack.Machine<Banked> {
    CallStack.Machine(BankedOf(c.s), seq(|c.fs|, i requires 0 <= i < |c.fs| => c.fs[i].caller.banked))
  }

  /** Every step is a step of the abstract call stack, of the same kind. */
  lemma RStepRefines(descs: seq<ThunkData>, c: RConfig, d: RConfig)
    requires RInv(c) && RStep(descs, c, d)
    ensures RReturn(c, d) ==> CallStack.Returns(RAbstract(c), RAbstract(d))
    ensures (exists k, link :: RCall(descs, c, d, k, link)) ==> CallStack.Calls(RAbstract(c), RAbstract(d))
    ensures CallStack.Step(RAbstract(c), RAbstract(d))
  {
    hide Encode;
    if RReturn(c, d) {
      RReturnRestores(c, d);
      assert RAbstract(d).callers == RAbstract(c).callers[..|c.fs| - 1];
    }
    if k, link :| RCall(descs, c, d, k, link) {
      assert RAbstract(d).callers == RAbstract(c).callers + [BankedOf(c.s)];
    }
  }

  /** A run that starts with a call and ends with the return that matches it. */
  ghost predicate RWholeCall(descs: seq<ThunkData>, h: seq<RConfig>) {
    && RRun(descs, h) && |h| >= 3
    && (exists k, link :: RCall(descs, h[0], h[1], k, link))
    && RReturn(h[|h| - 2], h[|h| - 1])
    && |h[|h| - 1].fs| == |h[0].fs|
    && forall j :: 0 < j < |h| - 1 ==> |h[j].fs| > |h[0].fs|
  }

  /**
   * Over every run between a call and its matching return, re-entrant calls included, the caller gets
   * back its stack pointer, thread pointer and compartment ID, and the executive stack is as before.
   */
  lemma RWholeCallRestores(descs: seq<ThunkData>, h: seq<RConfig>)
    requires RWholeCall(descs, h)
    ensures BankedOf(h[|h| - 1].s) == BankedOf(h[0].s)
    ensures var s, t := h[0].s, h[|h| - 1].s; t.rcsp == s.rcsp && t.rctpidr == s.rctpidr && t.cid == s.cid
    ensures h[|h| - 1].fs == h[0].fs && h[|h| - 1].s.estack == h[0].s.estack
  {
    hide RStep, RCall, RReturn, RInv, RAbstract, BankedOf;
    hide CallStack.Step, CallStack.Calls, CallStack.Returns;
    var m := |h| - 1;
    var a := seq(|h|, i requires 0 <= i < |h| => RAbstract(h[i]));
    forall i | 0 <= i < m
      ensures CallStack.Step(a[i], a[i + 1])
    {
      RRunKeeps(descs, h, i);
      RStepRefines(descs, h[i], h[i + 1]);
    }
    RRunKeeps(descs, h, m - 1);
    RRunKeeps(descs, h, m);
    RStepRefines(descs, h[0], h[1]);
    RReturnIsStep(descs, h[m - 1], h[m]);
    RStepRefines(descs, h[m - 1], h[m]);
    forall i | 0 <= i <= m
      ensures |a[i].callers| == |h[i].fs| && a[i].running == BankedOf(h[i].s)
    {
      RAbstractParts(h[i]);
    }
    CallStack.MatchingReturn(a);
    RWholeCallFrames(descs, h);
    RInvMeans(h[0]);
    RInvMeans(h[m]);
    SameBanked(h[m].s, h[0].s);
  }

  lemma SameBanked(s: RState, t: RState)
    requires BankedOf(s) == BankedOf(t)
    ensures s.rcsp == t.rcsp && s.rctpidr == t.rctpidr && s.cid == t.cid
  {
  }

  lemma RAbstractParts(c: RConfig)
    ensures |RAbstract(c).callers| == |c.fs| && RAbstract(c).running == BankedOf(c.s)
  {
  }

  lemma RInvMeans(c: RConfig)
    requires RInv(c)
    ensures c.s.estack == Encode(c.fs)
  {
  }

  lemma RReturnIsStep(descs: seq<ThunkData>, c: RConfig, d: RConfig)
    requires RReturn(c, d)
    ensures RStep(descs, c, d)
  {
  }

  lemma RStepNests(descs: seq<ThunkData>, c: RConfig, d: RConfig)
    requires RStep(descs, c, d)
    ensures CallStack.Nests(c.fs, d.fs)
  {
  }

  lemma RWholeCallFrames(descs: seq<ThunkData>, h: seq<RConfig>)
    requires RWholeCall(descs, h)
    ensures h[|h| - 2].fs == h[1].fs && h[|h| - 1].fs == h[0].fs
  {
    hide RStep, RInv, RCall, RReturn;
    var g := seq(|h|, i requires 0 <= i < |h| => h[i].fs);
    forall i | 0 <= i < |h| - 1
      ensures CallStack.Nests(g[i], g[i + 1])
    {
      RStepNests(descs, h[i], h[i + 1]);
    }
    CallStack.MatchingFrames(g);
  }

  // ---------------------------------------------------------------- Runs on own stacks

  function Tops(descs: seq<ThunkData>): seq<Cap> { seq(|descs|, i requires 0 <= i < |descs| => descs[i].sp) }

  /** A call, possibly re-entrant, with room for the frame on the running stack. */
  ghost predicate RoomCall(root: Stack, descs: seq<ThunkData>, c: RConfig, d: RConfig, k: nat, link: Cap) {
    && RCall(descs, c, d, k, link) && Running(c.fs) <= |descs|
    && var stack := Stacks(root, Tops(descs))[Running(c.fs)];
       stack.base + 192 <= c.s.rcsp.address <= stack.base + stack.length
  }

  /** The running compartment leaves the other stacks alone; its own stack is its own business. */
  ghost predicate OwnWork(root: Stack, descs: seq<ThunkData>, c: RConfig, d: RConfig) {
    RWork(c, d) && OthersSame(Stacks(root, Tops(descs)), c.s.mem, d.s.mem, Running(c.fs))
  }

  ghost predicate OwnStep(root: Stack, descs: seq<ThunkData>, c: RConfig, d: RConfig) {
    (exists k, link :: RoomCall(root, descs, c, d, k, link)) || RReturn(c, d) || OwnWork(root, descs, c, d)
  }

  lemma OwnStepIsLocal(root: Stack, descs: seq<ThunkData>, c: RConfig, d: RConfig)
    requires Distinct(Stacks(root, Tops(descs))) && OwnStep(root, descs, c, d)
    ensures OthersSame(Stacks(root, Tops(descs)), c.s.mem, d.s.mem, Running(c.fs))
  {
    hide Distinct, Stacks, SameOutside, WordsAt, OthersSame;
    if k, link :| RoomCall(root, descs, c, d, k, link) {
      var p := Place(Running(c.fs), c.s.rcsp.address, SavedRegs(BSP, c.s.regs));
      SaveIsLocal(Stacks(root, Tops(descs)), c.s.mem, d.s.mem, p);
    } else if RReturn(c, d) {
      NothingChanged(Stacks(root, Tops(descs)), c.s.mem, Running(c.fs));
    }
  }

  lemma PushIsCall(root: Stack, descs: seq<ThunkData>, c: RConfig, d: RConfig)
    requires OwnStep(root, descs, c, d) && |d.fs| > |c.fs|
    ensures exists k, link :: RoomCall(root, descs, c, d, k, link)
  {
    hide RoomCall, RLeaves;
  }

  /** Where the thunk puts the frame of a caller. */
  function PlaceOf(c: RConfig): Place
    requires |c.s.regs| == 31
  {
    Place(Running(c.fs), c.s.rcsp.address, SavedRegs(BSP, c.s.regs))
  }

  lemma CallStores(root: Stack, descs: seq<ThunkData>, c: RConfig, d: RConfig)
    requires exists k, link :: RoomCall(root, descs, c, d, k, link)
    ensures |c.s.regs| == 31 && d.fs != []
    ensures var p, f := PlaceOf(c), d.fs[|d.fs| - 1].caller;
            && p.home <= |descs| && p.Fits(Stacks(root, Tops(descs))[p.home])
            && WordsAt(d.s.mem, p.Bottom(), p.words) && p.Bottom() == c.s.rcsp.address - 192
            && f.banked == BankedOf(c.s) && f.saved == p.words
  {
    hide Stacks, SameOutside, WordsAt;
  }

  /** The caller's frame stays intact while nothing runs on its stack. */
  lemma {:induction false} FrameUndisturbed(root: Stack, descs: seq<ThunkData>, h: seq<RConfig>, i: nat)
    requires 0 < i < |h| && Distinct(Stacks(root, Tops(descs))) && |h[1].fs| > |h[0].fs|
    requires forall j :: 0 <= j < i ==> OwnStep(root, descs, h[j], h[j + 1])
    requires forall j :: 0 < j < i ==> Running(h[j].fs) != Running(h[0].fs)
    ensures |h[0].s.regs| == 31
    ensures var p := PlaceOf(h[0]); WordsAt(h[i].s.mem, p.Bottom(), p.words)
  {
    PushIsCall(root, descs, h[0], h[1]);
    CallStores(root, descs, h[0], h[1]);
    hide OwnStep, Distinct, WordsAt, Stacks, RoomCall, SavedRegs, OthersSame, Place.Fits;
    if i > 1 {
      FrameUndisturbed(root, descs, h, i - 1);
      OwnStepIsLocal(root, descs, h[i - 1], h[i]);
      PlaceKept(Stacks(root, Tops(descs)), h[i - 1].s.mem, h[i].s.mem, Running(h[i - 1].fs), PlaceOf(h[0]));
    }
  }

  /**
   * Over a whole call the caller also gets back c19 to c30 if nothing runs on its stack in between.
   * All other compartments may be entered any number of times, active or not.
   */
  lemma UndisturbedCallRestores(root: Stack, descs: seq<ThunkData>, h: seq<RConfig>)
    requires RWholeCall(descs, h) && Distinct(Stacks(root, Tops(descs)))
    requires forall i :: 0 <= i < |h| - 1 ==> OwnStep(root, descs, h[i], h[i + 1])
    requires forall i :: 0 < i < |h| - 1 ==> Running(h[i].fs) != Running(h[0].fs)
    ensures |h[0].s.regs| == |h[|h| - 1].s.regs| == 31 && BSP.Valid()
    ensures SavedRegs(BSP, h[|h| - 1].s.regs) == SavedRegs(BSP, h[0].s.regs)
    ensures BankedOf(h[|h| - 1].s) == BankedOf(h[0].s)
    ensures forall r :: 19 <= r <= 30 ==> h[|h| - 1].s.regs[r] == h[0].s.regs[r]
  {
    hide OwnStep, RoomCall, RCall, RStep, RLeaves, Distinct, SameOutside, WordsAt, Stacks, SavedRegs;
    var m := |h| - 1;
    RWholeCallFrames(descs, h);
    RWholeCallRestores(descs, h);
    RRunKeeps(descs, h, m - 1);
    RReturnRestores(h[m - 1], h[m]);
    PushIsCall(root, descs, h[0], h[1]);
    CallStores(root, descs, h[0], h[1]);
    FrameUndisturbed(root, descs, h, m - 1);
    SameSaved(h[m].s.regs, h[0].s.regs);
  }

  // ---------------------------------------------------------------- Runs without re-entry

  /** A call into a compartment that is not active. */
  ghost predicate FreshCall(root: Stack, descs: seq<ThunkData>, c: RConfig, d: RConfig, k: nat, link: Cap) {
    RoomCall(root, descs, c, d, k, link) && forall i :: 0 <= i <= |c.fs| ==> Home(c.fs, i) != k + 1
  }

  ghost predicate FreshStep(root: Stack, descs: seq<ThunkData>, c: RConfig, d: RConfig) {
    (exists k, link :: FreshCall(root, descs, c, d, k, link)) || RReturn(c, d) || OwnWork(root, descs, c, d)
  }

  /** Activation `n` runs on stack `home`, and no later one does. */
  predicate LaterElsewhere(fs: seq<RFrame>, n: nat, home: nat) {
    n < |fs| && Home(fs, n) == home && forall i :: n < i <= |fs| ==> Home(fs, i) != home
  }

  lemma FreshStepElsewhere(root: Stack, descs: seq<ThunkData>, c: RConfig, d: RConfig, n: nat, home: nat)
    requires FreshStep(root, descs, c, d) && LaterElsewhere(c.fs, n, home) && n < |d.fs|
    ensures LaterElsewhere(d.fs, n, home)
  {
    hide RLeaves, REnters;
    assert forall i :: 0 <= i <= |c.fs| && i <= |d.fs| ==> Home(d.fs, i) == Home(c.fs, i);
    if k: nat, link :| FreshCall(root, descs, c, d, k, link) {
      assert Home(c.fs, n) != k + 1;
    }
  }

  lemma {:induction false} FreshRunElsewhere(root: Stack, descs: seq<ThunkData>, h: seq<RConfig>, i: nat)
    requires RWholeCall(descs, h) && 0 < i < |h| - 1
    requires forall j :: 0 <= j < |h| - 1 ==> FreshStep(root, descs, h[j], h[j + 1])
    ensures LaterElsewhere(h[i].fs, |h[0].fs|, Running(h[0].fs))
  {
    hide FreshStep, RStep, RInv, REnters, RLeaves;
    if i > 1 {
      FreshRunElsewhere(root, descs, h, i - 1);
      FreshStepElsewhere(root, descs, h[i - 1], h[i], |h[0].fs|, Running(h[0].fs));
    } else {
      FirstElsewhere(root, descs, h[0], h[1]);
    }
  }

  lemma FirstElsewhere(root: Stack, descs: seq<ThunkData>, c: RConfig, d: RConfig)
    requires FreshStep(root, descs, c, d) && |d.fs| > |c.fs|
    ensures LaterElsewhere(d.fs, |c.fs|, Running(c.fs))
  {
    hide RLeaves, REnters;
  }

  /** So without re-entry every whole call gives back c19 to c30. */
  lemma FreshWholeCallRestores(root: Stack, descs: seq<ThunkData>, h: seq<RConfig>)
    requires RWholeCall(descs, h) && Distinct(Stacks(root, Tops(descs)))
    requires forall i :: 0 <= i < |h| - 1 ==> FreshStep(root, descs, h[i], h[i + 1])
    ensures |h[0].s.regs| == |h[|h| - 1].s.regs| == 31 && BSP.Valid()
    ensures SavedRegs(BSP, h[|h| - 1].s.regs) == SavedRegs(BSP, h[0].s.regs)
    ensures BankedOf(h[|h| - 1].s) == BankedOf(h[0].s)
    ensures forall r :: 19 <= r <= 30 ==> h[|h| - 1].s.regs[r] == h[0].s.regs[r]
  {
    forall i | 0 <= i < |h| - 1
      ensures OwnStep(root, descs, h[i], h[i + 1])
    {
      FreshIsOwn(root, descs, h[i], h[i + 1]);
    }
    hide FreshStep, OwnStep, RStep, RInv, REnters, RLeaves, RoomCall;
    forall i | 0 < i < |h| - 1
      ensures Running(h[i].fs) != Running(h[0].fs)
    {
      FreshRunElsewhere(root, descs, h, i);
    }
    UndisturbedCallRestores(root, descs, h);
  }

  lemma FreshIsOwn(root: Stack, descs: seq<ThunkData>, c: RConfig, d: RConfig)
    requires FreshStep(root, descs, c, d)
    ensures OwnStep(root, descs, c, d)
  {
    hide RoomCall, RReturn, OwnWork;
  }

  // ---------------------------------------------------------------- The code of thunk and switch

  class Executive {
    const descs: seq<ThunkData>

    var rcsp: Cap
    var rctpidr: Cap
    var cid: Cap
    var c: seq<Cap>
    var mem: Cells
    /** The executive stack, lowest address first. */
    var estack: seq<Cap>

    ghost predicate Valid()
      reads this
    {
      |c| == 31
    }

    ghost function Snapshot(): RState
      reads this
    {
      RState(rcsp, rctpidr, cid, c, mem, estack)
    }

    /**
     * The end of `_start` before it branches to `main`: the root descriptor's thread pointer, stack
     * pointer and ID become current, and nothing is on the executive stack yet.
     */
    constructor Start(root: ThunkData, descs: seq<ThunkData>, regs: seq<Cap>)
      requires |regs| == 31
      ensures Valid() && this.descs == descs && Snapshot() == RState(root.sp, root.tp, root.cid, regs, map[], [])
      ensures RInv(RConfig(Snapshot(), []))
    {
      this.descs, c, mem, estack := descs, regs, map[], [];
      rctpidr, rcsp := root.tp, root.sp;
      cid := root.cid;
    }

    /** `_thunk` pushes c19 to c30 on the restricted stack. */
    method ThunkSave()
      requires Valid()
      modifies this`rcsp, this`mem
      ensures rcsp == old(rcsp).Plus(-192)
      ensures WordsAt(mem, rcsp.address, SavedRegs(BSP, c))
      ensures SameOutside(old(mem), mem, rcsp.address, rcsp.address + 192)
    {
      hide WordsAt, SameOutside, SavedRegs;
      ghost var before := mem;
      rcsp := rcsp.Plus(-192);
      mem := StorePair(mem, rcsp.address, c[29], c[30]);
      mem := StorePair(mem, rcsp.address + 32, c[27], c[28]);
      mem := StorePair(mem, rcsp.address + 64, c[25], c[26]);
      mem := StorePair(mem, rcsp.address + 96, c[23], c[24]);
      mem := StorePair(mem, rcsp.address + 128, c[21], c[22]);
      mem := StorePair(mem, rcsp.address + 160, c[19], c[20]);
      SavedPairs(before, mem, rcsp.address, c);
    }

    /** `get_arg n`, where x16 is compared with 16n as a signed number. */
    method GetArg(n: nat)
      requires Valid() && 1 <= n <= 8
      modifies this`c
      ensures Valid() && ArgLoaded(mem, old(c)[9], n, c[n])
      ensures forall i :: 0 <= i < 31 && i != n ==> c[i] == old(c)[i]
    {
      var x16 := c[9].length;
      ArgCountAt(c[9], n);
      if Signed(x16, U64) < 16 * n {
        c := c[n := NULL];
      } else {
        c := c[n := LoadCell(mem, c[9].address + 16 * (n - 1))];
      }
    }

    /** `_switch` saves the banked registers of the caller and installs those of compartment `k`. */
    method Bank(k: nat)
      requires Valid() && k < |descs|
      modifies this`rcsp, this`rctpidr, this`cid, this`c, this`estack
      ensures Valid() && rcsp == descs[k].sp && rctpidr == descs[k].tp && cid == descs[k].cid
      ensures estack == [old(c)[30], old(cid), old(rctpidr), old(rcsp)] + old(estack)
      ensures c[..10] == old(c)[..10] && c[26] == descs[k].target && c[29] == descs[k].sp
    {
      c := c[26 := descs[k].target][27 := descs[k].tp];
      c := c[29 := descs[k].sp][28 := descs[k].cid];
      c := c[16 := rctpidr][17 := rcsp];
      estack := [c[16], c[17]] + estack;
      c := c[16 := cid];
      estack := [c[30], c[16]] + estack;
      rctpidr := c[27];
      rcsp := c[29];
      cid := c[28];
    }

    /** Loads the variadic arguments into c1 to c8, the last one first. */
    method GetArgs()
      requires Valid()
      modifies this`c
      ensures Valid() && c[0] == old(c[0]) && c[9..] == old(c)[9..]
      ensures ArgsLoaded(mem, old(c)[9], c)
    {
      hide ArgLoaded;
      GetArg(8);
      GetArg(7);
      GetArg(6);
      GetArg(5);
      GetArg(4);
      GetArg(3);
      GetArg(2);
      GetArg(1);
    }

    /** Thunk of compartment `k` and `_switch`, up to the branch to the target in restricted mode. */
    method Enter(k: nat, thunkLink: Cap, switchLink: Cap) returns (pc: Cap)
      requires Valid() && k < |descs|
      modifies this
      ensures Valid()
      ensures REnters(old(Snapshot()), Snapshot(), descs[k], thunkLink)
      ensures rcsp == descs[k].sp && rctpidr == descs[k].tp && cid == descs[k].cid
      ensures estack == [thunkLink, old(cid), old(rctpidr), old(rcsp).Plus(-192)] + old(estack)
      ensures pc == descs[k].target && c[0] == old(c[0]) && c[29] == descs[k].sp && c[30] == switchLink
      ensures ArgsLoaded(mem, old(c)[9], c)
      ensures forall n :: 9 <= n <= 28 ==> c[n] == NULL
    {
      hide WordsAt, SameOutside, SavedRegs, ArgLoaded, Zeroed;
      ThunkSave();
      c := c[30 := thunkLink];
      Bank(k);
      assert c[9] == c[..10][9] == old(c)[9] && c[0] == c[..10][0] == old(c)[0];
      ghost var high := c[9..];
      GetArgs();
      assert c[26] == high[17] && c[29] == high[20];
      c := c[30 := c[26]];
      c := Zeroed(c, 9, 28);
      pc := c[30];
      c := c[30 := switchLink];
    }

    /** From the return of the target through the end of `_switch` and of the thunk. */
    method Leave() returns (pc: Cap)
      requires Valid() && |estack| >= 4
      modifies this
      ensures Valid()
      ensures RLeaves(old(Snapshot()), Snapshot())
      ensures cid == old(estack)[1] && rctpidr == old(estack)[2] && rcsp == old(estack)[3].Plus(192)
      ensures estack == old(estack)[4..]
      ensures pc == c[30] && c[0] == old(c[0])
      ensures forall i :: 1 <= i <= 18 ==> c[i] == NULL
    {
      hide WordsAt, SavedRegs;
      c := c[30 := estack[0]][16 := estack[1]];
      estack := estack[2..];
      cid := c[16];
      c := c[16 := estack[0]][17 := estack[1]];
      estack := estack[2..];
      rctpidr := c[16];
      rcsp := c[17];
      c := Zeroed(c, 1, 18);
      ghost var low := c[..19];
      ThunkRestore();
      assert forall i :: 0 <= i <= 18 ==> c[i] == low[i];
      pc := c[30];
    }

    method ThunkRestore()
      requires Valid()
      modifies this`rcsp, this`c
      ensures rcsp == old(rcsp).Plus(192) && Valid() && c[..19] == old(c)[..19]
      ensures WordsAt(mem, old(rcsp).address, SavedRegs(BSP, c))
    {
      hide WordsAt, SavedRegs;
      c := c[19 := LoadCell(mem, rcsp.address + 160)][20 := LoadCell(mem, rcsp.address + 176)];
      c := c[21 := LoadCell(mem, rcsp.address + 128)][22 := LoadCell(mem, rcsp.address + 144)];
      c := c[23 := LoadCell(mem, rcsp.address + 96)][24 := LoadCell(mem, rcsp.address + 112)];
      c := c[25 := LoadCell(mem, rcsp.address + 64)][26 := LoadCell(mem, rcsp.address + 80)];
      c := c[27 := LoadCell(mem, rcsp.address + 32)][28 := LoadCell(mem, rcsp.address + 48)];
      c := c[29 := LoadCell(mem, rcsp.address)][30 := LoadCell(mem, rcsp.address + 16)];
      LoadedPairs(mem, rcsp.address, c);
      rcsp := rcsp.Plus(192);
    }
  }

  /** How many arguments c9 is taken to hold, of eight at most. */
  function ArgCount(c9: Cap): (n: nat)
    ensures n <= 8
  {
    if Signed(c9.length, U64) < 0 then 0 else Min(8, Signed(c9.length, U64) / 16)
  }

  lemma ArgCountAt(c9: Cap, n: nat)
    requires 1 <= n <= 8
    ensures n <= ArgCount(c9) <==> 16 * n <= Signed(c9.length, U64)
  {
  }

  /** `x` is what belongs into argument register `n`. */
  predicate ArgLoaded(mem: Cells, c9: Cap, n: nat, x: Cap) {
    x == if 1 <= n <= ArgCount(c9) then LoadCell(mem, c9.address + 16 * (n - 1)) else NULL
  }

  predicate ArgsLoaded(mem: Cells, c9: Cap, c: seq<Cap>)
    requires |c| == 31
  {
    forall n :: 1 <= n <= 8 ==> ArgLoaded(mem, c9, n, c[n])
  }

  /** With no arguments c9 is NULL, and all argument registers are cleared although its length is not zero. */
  lemma NullMeansNoArguments(mem: Cells, c: seq<Cap>)
    requires |c| == 31 && ArgsLoaded(mem, NULL, c)
    ensures forall n :: 1 <= n <= 8 ==> c[n] == NULL
  {
    assert forall n :: 1 <= n <= 8 ==> ArgLoaded(mem, NULL, n, c[n]);
  }

  /** When c9 spans exactly the given words, the first of them are in c1 and so on, and the rest is cleared. */
  lemma WordsArePassed(mem: Cells, c9: Cap, words: seq<Cap>, c: seq<Cap>)
    requires |c| == 31 && ArgsLoaded(mem, c9, c)
    requires c9.length == 16 * |words| < U64 / 2 && WordsAt(mem, c9.address, words)
    ensures forall n :: 1 <= n <= 8 ==> c[n] == if n <= |words| then words[n - 1] else NULL
  {
    forall n | 1 <= n <= 8
      ensures c[n] == if n <= |words| then words[n - 1] else NULL
    {
      assert ArgLoaded(mem, c9, n, c[n]);
      assert n <= |words| ==> LoadCell(mem, c9.address + 16 * (n - 1)) == words[n - 1];
    }
  }
}
