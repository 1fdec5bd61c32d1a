/**
 * Compartment switches that swap the stack pointer with a slot of the callee: the trampoline of
 * `src/compartments/src/manager.c` and the private-stack switch of `src/compartments/src/switch.S`.
 * The caller's registers are saved on its own stack, its stack pointer goes into the callee's slot, and
 * the callee continues on whatever stack the slot held. A compartment may be entered again while it is
 * active; it then runs on the stack its slot holds by then.
 */
module SwapSwitch {
  import opened Capability
  import CallStack

  /**
   * `saved` lists the registers of a frame in memory order; `extra` is the space that the switch itself
   * takes at the top of the callee's stack (0 or one capability).
   */
  datatype Protocol = Protocol(saved: seq<nat>, extra: int)
  {
    predicate Valid() {
      && 0 < |saved| && (extra == 0 || extra == 16)
      && (forall i :: 0 <= i < |saved| ==> saved[i] < 31)
      && (forall i, j :: 0 <= i < j < |saved| ==> saved[i] != saved[j])
    }

    function Size(): int { 16 * |saved| }
  }

  /** Memory by capability-sized cells; cells that were never written hold NULL. */
  type Cells = map<int, Cap>

  function LoadCell(mem: Cells, a: int): Cap { if a in mem then mem[a] else NULL }

  datatype State = State(csp: Cap, regs: seq<Cap>, mem: Cells, slots: seq<Cap>)

  function SavedRegs(p: Protocol, regs: seq<Cap>): seq<Cap>
    requires p.Valid() && |regs| == 31
  {
    seq(|p.saved|, i requires 0 <= i < |p.saved| => regs[p.saved[i]])
  }

  /** What a caller gets back: its stack pointer, the saved registers, and the slots of all compartments. */
  datatype Context = Context(csp: Cap, saved: seq<Cap>, slots: seq<Cap>)

  function ContextOf(p: Protocol, s: State): Context
    requires p.Valid() && |s.regs| == 31
  {
    Context(s.csp, SavedRegs(p, s.regs), s.slots)
  }

  // ---------------------------------------------------------------- Frames and stacks

  predicate WordsAt(mem: Cells, a: int, words: seq<Cap>) {
    forall i :: 0 <= i < |words| ==> LoadCell(mem, a + 16 * i) == words[i]
  }

  /** Only the cells of `[a, b)` may differ. */
  ghost predicate SameOutside(m: Cells, n: Cells, a: int, b: int) {
    forall x {:trigger LoadCell(n, x)} :: x + 16 <= a || b <= x ==> LoadCell(n, x) == LoadCell(m, x)
  }

  /** A stack is known by the bounds of its capability; it holds the cells that lie wholly inside. */
  datatype Stack = Stack(base: nat, length: nat)
  {
    predicate Disjoint(t: Stack) { base + length <= t.base || t.base + t.length <= base }
    predicate Holds(a: int) { base <= a && a + 16 <= base + length }
  }

  function StackOf(c: Cap): Stack { Stack(c.base, c.length) }

  predicate Distinct(stacks: seq<Stack>) {
    forall i, j :: 0 <= i < j < |stacks| ==> stacks[i].Disjoint(stacks[j])
  }

  /** The stack pointers before the first call: the root's, and one in the slot of every compartment. */
  datatype Init = Init(root: Cap, slots: seq<Cap>)
  {
    predicate Valid() {
      && Distinct(Stacks())
      && (forall i :: 0 <= i <= |slots| ==> Stacks()[i].length > 0)
      && root.base <= root.address <= root.base + root.length
    }

    function Stacks(): seq<Stack> { [StackOf(root)] + seq(|slots|, i requires 0 <= i < |slots| => StackOf(slots[i])) }
  }

  /**
   * A suspended caller: the compartment it called, its context, the stack pointer that the slot held,
   * and the sealed object that the switch keeps on the callee's stack if it needs one.
   */
  datatype Frame = Frame(callee: nat, context: Context, given: Cap, token: Cap)

  type Frames = seq<Frame>

  function Front(fs: Frames): Frames requires fs != [] { fs[..|fs| - 1] }
  function Last(fs: Frames): Frame requires fs != [] { fs[|fs| - 1] }

  /** The stack pointer that the running code was given. */
  function Given(p: Protocol, init: Init, fs: Frames): Cap {
    if fs == [] then init.root else Last(fs).given.Plus(-p.extra)
  }

  /** What the slots hold while these callers are suspended. */
  function Slots(p: Protocol, init: Init, fs: Frames): (r: seq<Cap>)
    ensures |r| == |init.slots|
  {
    if fs == [] then init.slots
    else
      var r := Slots(p, init, Front(fs));
      if Last(fs).callee < |r| then r[Last(fs).callee := Last(fs).context.csp.Plus(-p.Size())] else r
  }

  /** The caller is on the stack it was given, at or below the given pointer, with room for a frame. */
  predicate MayCall(p: Protocol, csp: Cap, given: Cap) {
    && StackOf(csp) == StackOf(given)
    && csp.base + p.Size() <= csp.address <= given.address
  }

  /** The callee's stack has room for what the switch puts there. */
  predicate MayEnter(p: Protocol, slot: Cap) { slot.base + p.extra <= slot.address <= slot.base + slot.length }

  predicate Nested(p: Protocol, init: Init, fs: Frames)
    requires p.Valid()
  {
    fs == [] ||
    var f, front := Last(fs), Front(fs);
    && Nested(p, init, front)
    && f.callee < |init.slots| && f.given == Slots(p, init, front)[f.callee]
    && |f.context.saved| == |p.saved| && f.context.slots == Slots(p, init, front)
    && MayCall(p, f.context.csp, Given(p, init, front)) && MayEnter(p, f.given)
  }

  /** The frames and sealed objects of all suspended callers are in memory. */
  predicate Stored(p: Protocol, mem: Cells, fs: Frames) {
    forall i :: 0 <= i < |fs| ==>
      && WordsAt(mem, fs[i].context.csp.address - p.Size(), fs[i].context.saved)
      && (p.extra == 16 ==> LoadCell(mem, fs[i].given.address - 16) == fs[i].token)
  }

  // ---------------------------------------------------------------- Steps

  /** The concrete state together with the callers that are suspended in it. */
  datatype Config = Config(s: State, fs: Frames)

  ghost predicate Inv(p: Protocol, init: Init, c: Config) {
    && p.Valid() && init.Valid() && |c.s.regs| == 31
    && Nested(p, init, c.fs) && Stored(p, c.s.mem, c.fs)
    && c.s.slots == Slots(p, init, c.fs)
  }

  /** A call into compartment `k`. */
  ghost predicate Call(p: Protocol, init: Init, c: Config, d: Config, k: nat, token: Cap) {
    && p.Valid() && |c.s.regs| == |d.s.regs| == 31 && k < |c.s.slots|
    && MayCall(p, c.s.csp, Given(p, init, c.fs)) && MayEnter(p, c.s.slots[k])
    && Enters(p, c.s, d.s, k, token)
    && d.fs == c.fs + [Frame(k, ContextOf(p, c.s), c.s.slots[k], token)]
  }

  /** What the entry code does. */
  ghost predicate Enters(p: Protocol, s: State, t: State, k: nat, token: Cap)
    requires p.Valid() && |s.regs| == 31 && k < |s.slots|
  {
    var sp, slot := s.csp.Plus(-p.Size()), s.slots[k];
    && t.csp == slot.Plus(-p.extra) && t.slots == s.slots[k := sp]
    && WordsAt(t.mem, sp.address, SavedRegs(p, s.regs))
    && (p.extra == 16 ==> LoadCell(t.mem, slot.address - 16) == token)
    && forall x {:trigger LoadCell(t.mem, x)} ::
         (x + 16 <= sp.address || s.csp.address <= x) && (x + 16 <= slot.address - p.extra || slot.address <= x)
         ==> LoadCell(t.mem, x) == LoadCell(s.mem, x)
  }

  /** A return from the compartment that was called last, by code that hands back the stack pointer it was given. */
  ghost predicate Return(p: Protocol, init: Init, c: Config, d: Config) {
    && p.Valid() && c.fs != [] && |d.s.regs| == 31 && Last(c.fs).callee < |c.s.slots|
    && c.s.csp == Given(p, init, c.fs)
    && Leaves(p, c.s, d.s, Last(c.fs).callee)
    && d.fs == Front(c.fs)
  }

  /** What the exit code does: it reads the frame through the pointer in the slot. */
  ghost predicate Leaves(p: Protocol, s: State, t: State, k: nat)
    requires p.Valid() && k < |s.slots| && |t.regs| == 31
  {
    && t.csp == s.slots[k].Plus(p.Size()) && t.slots == s.slots[k := s.csp.Plus(p.extra)]
    && WordsAt(s.mem, s.slots[k].address, SavedRegs(p, t.regs))
    && t.mem == s.mem
  }

  /**
   * Anything the running code does between switches. It may change every register, and memory outside
   * all stacks or below the pointer it was given, but not slots, other stacks or what lies above.
   */
  ghost predicate Work(p: Protocol, init: Init, c: Config, d: Config) {
    var g := Given(p, init, c.fs);
    && |d.s.regs| == 31 && d.s.slots == c.s.slots && d.fs == c.fs
    && forall x {:trigger LoadCell(d.s.mem, x)} ::
         (exists i :: 0 <= i <= |init.slots| && init.Stacks()[i].Holds(x)) && !(g.base <= x && x + 16 <= g.address)
         ==> LoadCell(d.s.mem, x) == LoadCell(c.s.mem, x)
  }

  // ---------------------------------------------------------------- Conservation of stacks

  /** The stacks named by the given pointer and by all slots. */
  function Holders(p: Protocol, init: Init, fs: Frames): (r: seq<Stack>)
    ensures |r| == |init.slots| + 1
  {
    [StackOf(Given(p, init, fs))] +
    seq(|init.slots|, i requires 0 <= i < |init.slots| => StackOf(Slots(p, init, fs)[i]))
  }

  function Swapped<T>(s: seq<T>, i: nat): seq<T>
    requires 0 < i < |s|
  {
    s[0 := s[i]][i := s[0]]
  }

  lemma SwapKeepsElements<T>(s: seq<T>, i: nat)
    requires 0 < i < |s|
    ensures multiset(Swapped(s, i)) == multiset(s)
  {
  }

  lemma SwapKeepsDistinct(s: seq<Stack>, i: nat)
    requires 0 < i < |s| && Distinct(s)
    ensures Distinct(Swapped(s, i))
  {
    var t := Swapped(s, i);
    forall a, b | 0 <= a < b < |t|
      ensures t[a].Disjoint(t[b])
    {
      var a', b' := if a == 0 then i else if a == i then 0 else a, if b == i then 0 else b;
      assert t[a] == s[a'] && t[b] == s[b'];
      assert a' < b' ==> s[a'].Disjoint(s[b']);
      assert b' < a' ==> s[b'].Disjoint(s[a']);
    }
  }

  lemma CallSwaps(p: Protocol, init: Init, fs: Frames)
    requires p.Valid() && Nested(p, init, fs) && fs != []
    ensures Holders(p, init, fs) == Swapped(Holders(p, init, Front(fs)), Last(fs).callee + 1)
  {
  }

  lemma NoHolders(p: Protocol, init: Init)
    ensures Holders(p, init, []) == init.Stacks()
    ensures init.Valid() ==> Distinct(init.Stacks())
  {
  }

  /** However calls nest, the stacks are a permutation of the initial ones, and stay disjoint. */
  lemma {:induction false} StacksConserved(p: Protocol, init: Init, fs: Frames)
    requires p.Valid() && init.Valid() && Nested(p, init, fs)
    ensures multiset(Holders(p, init, fs)) == multiset(init.Stacks())
    ensures Distinct(Holders(p, init, fs))
  {
    hide Holders, Slots, Given, Distinct, Swapped, MayCall, MayEnter;
    if fs == [] {
      NoHolders(p, init);
    } else {
      StacksConserved(p, init, Front(fs));
      CallSwaps(p, init, fs);
      SwapKeepsElements(Holders(p, init, Front(fs)), Last(fs).callee + 1);
      SwapKeepsDistinct(Holders(p, init, Front(fs)), Last(fs).callee + 1);
    }
  }

  lemma HoldersKnown(p: Protocol, init: Init, fs: Frames, j: nat)
    requires p.Valid() && init.Valid() && Nested(p, init, fs) && j <= |init.slots|
    ensures Holders(p, init, fs)[j] in init.Stacks() && Holders(p, init, fs)[j].length > 0
  {
    StacksConserved(p, init, fs);
    assert Holders(p, init, fs)[j] in multiset(Holders(p, init, fs));
  }

  lemma KnownApart(init: Init, a: Stack, b: Stack)
    requires init.Valid() && a in init.Stacks() && b in init.Stacks()
    ensures a == b || a.Disjoint(b)
  {
  }

  /** The slot of a compartment that is not active holds its own stack pointer. */
  lemma {:induction false} IdleKeepsOwnStack(p: Protocol, init: Init, fs: Frames, k: nat)
    requires p.Valid() && Nested(p, init, fs) && k < |init.slots|
    requires forall i :: 0 <= i < |fs| ==> fs[i].callee != k
    ensures Slots(p, init, fs)[k] == init.slots[k]
  {
    if fs != [] {
      assert forall i :: 0 <= i < |Front(fs)| ==> Front(fs)[i].callee != k;
      IdleKeepsOwnStack(p, init, Front(fs), k);
    }
  }

  /** The slot of an active compartment holds the stack pointer of the caller that entered it last. */
  lemma {:induction false} SlotHoldsLastCaller(p: Protocol, init: Init, fs: Frames, i: nat)
    requires p.Valid() && Nested(p, init, fs) && i < |fs|
    requires forall j :: i < j < |fs| ==> fs[j].callee != fs[i].callee
    ensures fs[i].callee < |init.slots|
    ensures Slots(p, init, fs)[fs[i].callee] == fs[i].context.csp.Plus(-p.Size())
  {
    if i < |fs| - 1 {
      assert Front(fs)[i] == fs[i];
      SlotHoldsLastCaller(p, init, Front(fs), i);
    }
  }

  /** So a compartment that was not active when it was entered runs on its own stack. */
  lemma FreshEntryOwnStack(p: Protocol, init: Init, fs: Frames)
    requires p.Valid() && Nested(p, init, fs) && fs != []
    requires forall i :: 0 <= i < |fs| - 1 ==> fs[i].callee != Last(fs).callee
    ensures Given(p, init, fs) == init.slots[Last(fs).callee].Plus(-p.extra)
  {
    IdleKeepsOwnStack(p, init, Front(fs), Last(fs).callee);
  }

  /** The caller's stack and the one it is about to switch to never overlap. */
  lemma CallSwitchesStacks(p: Protocol, init: Init, c: Config, k: nat)
    requires Inv(p, init, c) && k < |c.s.slots| && MayCall(p, c.s.csp, Given(p, init, c.fs))
    ensures StackOf(c.s.csp).Disjoint(StackOf(c.s.slots[k]))
  {
    StacksConserved(p, init, c.fs);
    var hs := Holders(p, init, c.fs);
    assert hs[0].Disjoint(hs[k + 1]);
  }

  // ---------------------------------------------------------------- Where suspended data lies

  /** Pointer `h` leaves everything from `limit` upwards on its stack alone. */
  predicate Below(h: Cap, stack: Stack, limit: int) {
    StackOf(h) == stack ==> h.address <= limit
  }

  /** No pointer that can still be used reaches into the frame or the token of caller `f`. */
  predicate Clear(p: Protocol, init: Init, fs: Frames, f: Frame)
  {
    && Below(Given(p, init, fs), StackOf(f.context.csp), f.context.csp.address - p.Size())
    && Below(Given(p, init, fs), StackOf(f.given), f.given.address - p.extra)
    && forall k :: 0 <= k < |init.slots| ==>
         && Below(Slots(p, init, fs)[k], StackOf(f.context.csp), f.context.csp.address - p.Size())
         && Below(Slots(p, init, fs)[k], StackOf(f.given), f.given.address - p.extra)
  }

  lemma HoldersDiffer(p: Protocol, init: Init, fs: Frames, a: nat, b: nat)
    requires p.Valid() && init.Valid() && Nested(p, init, fs) && a <= |init.slots| && b <= |init.slots| && a != b
    ensures Holders(p, init, fs)[a] != Holders(p, init, fs)[b]
  {
    hide Holders, Stack.Disjoint;
    StacksConserved(p, init, fs);
    HoldersKnown(p, init, fs, a);
    HoldersKnown(p, init, fs, b);
    var s, t := Holders(p, init, fs)[a], Holders(p, init, fs)[b];
    assert a < b ==> s.Disjoint(t);
    assert b < a ==> t.Disjoint(s);
    NotSelfDisjoint(s);
  }

  lemma NotSelfDisjoint(s: Stack)
    requires s.length > 0
    ensures !s.Disjoint(s)
  {
  }

  lemma NewFrameClearOfSlot(p: Protocol, init: Init, fs: Frames, k: nat)
    requires p.Valid() && init.Valid() && Nested(p, init, fs) && fs != [] && k < |init.slots|
    ensures var f := Last(fs);
            && Below(Slots(p, init, fs)[k], StackOf(f.context.csp), f.context.csp.address - p.Size())
            && Below(Slots(p, init, fs)[k], StackOf(f.given), f.given.address - p.extra)
  {
    hide MayEnter;
    var f, front := Last(fs), Front(fs);
    HoldersDiffer(p, init, front, 0, k + 1);
    if k != f.callee {
      HoldersDiffer(p, init, front, k + 1, f.callee + 1);
    }
  }

  /** In the state right after the call its own frame is clear … */
  lemma NewFrameClear(p: Protocol, init: Init, fs: Frames)
    requires p.Valid() && init.Valid() && Nested(p, init, fs) && fs != []
    ensures Clear(p, init, fs, Last(fs))
  {
    hide Slots, MayEnter, Below;
    forall k | 0 <= k < |init.slots|
      ensures Below(Slots(p, init, fs)[k], StackOf(Last(fs).context.csp), Last(fs).context.csp.address - p.Size())
      ensures Below(Slots(p, init, fs)[k], StackOf(Last(fs).given), Last(fs).given.address - p.extra)
    {
      NewFrameClearOfSlot(p, init, fs, k);
    }
    NewFrameClearOfGiven(p, init, fs);
  }

  lemma NewFrameClearOfGiven(p: Protocol, init: Init, fs: Frames)
    requires p.Valid() && init.Valid() && Nested(p, init, fs) && fs != []
    ensures var f := Last(fs);
            && Below(Given(p, init, fs), StackOf(f.context.csp), f.context.csp.address - p.Size())
            && Below(Given(p, init, fs), StackOf(f.given), f.given.address - p.extra)
  {
    hide MayEnter;
    HoldersDiffer(p, init, Front(fs), 0, Last(fs).callee + 1);
  }

  /** … and a further call keeps older frames clear, because pointers only move down. */
  lemma OldFrameClear(p: Protocol, init: Init, fs: Frames, f: Frame)
    requires p.Valid() && init.Valid() && Nested(p, init, fs) && fs != []
    requires Clear(p, init, Front(fs), f)
    ensures Clear(p, init, fs, f)
  {
  }

  lemma {:induction false} AllClear(p: Protocol, init: Init, fs: Frames, i: nat)
    requires p.Valid() && init.Valid() && Nested(p, init, fs) && i < |fs|
    ensures Clear(p, init, fs, fs[i])
  {
    if i == |fs| - 1 {
      NewFrameClear(p, init, fs);
    } else {
      AllClear(p, init, Front(fs), i);
      OldFrameClear(p, init, fs, fs[i]);
    }
  }

  /** The given pointer lies within its stack. */
  lemma GivenInStack(p: Protocol, init: Init, fs: Frames)
    requires p.Valid() && init.Valid() && Nested(p, init, fs)
    ensures var g := Given(p, init, fs); g.base <= g.address <= g.base + g.length
  {
  }

  lemma {:induction false} PrefixNested(p: Protocol, init: Init, fs: Frames, i: nat)
    requires p.Valid() && Nested(p, init, fs) && i <= |fs|
    ensures Nested(p, init, fs[..i])
  {
    if i < |fs| {
      PrefixNested(p, init, Front(fs), i);
      assert Front(fs)[..i] == fs[..i];
    } else {
      assert fs[..i] == fs;
    }
  }

  /** Cell `x` holds part of a suspended caller: it is in a stack, and out of reach of every pointer. */
  predicate Reserved(p: Protocol, init: Init, fs: Frames, stack: Stack, x: int) {
    && stack in init.Stacks() && stack.base <= x && x + 16 <= stack.base + stack.length
    && Below(Given(p, init, fs), stack, x)
    && forall k :: 0 <= k < |init.slots| ==> Below(Slots(p, init, fs)[k], stack, x)
  }

  lemma LastFacts(p: Protocol, init: Init, fs: Frames)
    requires p.Valid() && init.Valid() && Nested(p, init, fs) && fs != []
    ensures FrameFits(p, init, Last(fs))
  {
    GivenInStack(p, init, Front(fs));
    HoldersKnown(p, init, Front(fs), 0);
    HoldersKnown(p, init, Front(fs), Last(fs).callee + 1);
  }

  /** A suspended caller's data lies inside known stacks. */
  predicate FrameFits(p: Protocol, init: Init, f: Frame) {
    && StackOf(f.context.csp) in init.Stacks() && StackOf(f.given) in init.Stacks()
    && f.context.csp.base + p.Size() <= f.context.csp.address <= f.context.csp.base + f.context.csp.length
    && f.given.base + p.extra <= f.given.address <= f.given.base + f.given.length
    && |f.context.saved| == |p.saved|
  }

  lemma FrameFacts(p: Protocol, init: Init, fs: Frames, i: nat)
    requires p.Valid() && init.Valid() && Nested(p, init, fs) && i < |fs|
    ensures FrameFits(p, init, fs[i])
  {
    PrefixNested(p, init, fs, i + 1);
    LastFacts(p, init, fs[..i + 1]);
  }

  lemma FrameReserved(p: Protocol, init: Init, fs: Frames, i: nat, x: int)
    requires p.Valid() && init.Valid() && Nested(p, init, fs) && i < |fs|
    requires fs[i].context.csp.address - p.Size() <= x && x + 16 <= fs[i].context.csp.address
    ensures Reserved(p, init, fs, StackOf(fs[i].context.csp), x)
  {
    hide Given, Slots, Nested;
    AllClear(p, init, fs, i);
    FrameFacts(p, init, fs, i);
  }

  lemma TokenReserved(p: Protocol, init: Init, fs: Frames, i: nat)
    requires p.Valid() && init.Valid() && Nested(p, init, fs) && i < |fs| && p.extra == 16
    ensures Reserved(p, init, fs, StackOf(fs[i].given), fs[i].given.address - 16)
  {
    hide Given, Slots, Nested;
    AllClear(p, init, fs, i);
    FrameFacts(p, init, fs, i);
  }

  // ---------------------------------------------------------------- Every step keeps the invariant

  lemma WorkKeepsReserved(p: Protocol, init: Init, c: Config, d: Config, stack: Stack, x: int)
    requires Inv(p, init, c) && Work(p, init, c, d) && Reserved(p, init, c.fs, stack, x)
    ensures LoadCell(d.s.mem, x) == LoadCell(c.s.mem, x)
  {
    var g := Given(p, init, c.fs);
    GivenInStack(p, init, c.fs);
    HoldersKnown(p, init, c.fs, 0);
    KnownApart(init, stack, StackOf(g));
    var i :| 0 <= i < |init.Stacks()| && init.Stacks()[i] == stack;
    assert init.Stacks()[i].Holds(x);
  }

  lemma CallKeepsReserved(p: Protocol, init: Init, c: Config, d: Config, k: nat, token: Cap, stack: Stack, x: int)
    requires Inv(p, init, c) && Call(p, init, c, d, k, token) && Reserved(p, init, c.fs, stack, x)
    ensures LoadCell(d.s.mem, x) == LoadCell(c.s.mem, x)
  {
    var g, slot := Given(p, init, c.fs), c.s.slots[k];
    HoldersKnown(p, init, c.fs, 0);
    HoldersKnown(p, init, c.fs, k + 1);
    KnownApart(init, stack, StackOf(g));
    KnownApart(init, stack, StackOf(slot));
    GivenInStack(p, init, c.fs);
    var sp := c.s.csp.Plus(-p.Size());
    assert x + 16 <= sp.address || c.s.csp.address <= x;
    assert x + 16 <= slot.address - p.extra || slot.address <= x;
  }

  lemma StoredKept(p: Protocol, init: Init, c: Config, mem: Cells)
    requires Inv(p, init, c)
    requires forall stack, x {:trigger Reserved(p, init, c.fs, stack, x)} ::
               Reserved(p, init, c.fs, stack, x) ==> LoadCell(mem, x) == LoadCell(c.s.mem, x)
    ensures Stored(p, mem, c.fs)
  {
    hide Reserved, Nested, Slots, Given;
    forall i | 0 <= i < |c.fs|
      ensures WordsAt(mem, c.fs[i].context.csp.address - p.Size(), c.fs[i].context.saved)
      ensures p.extra == 16 ==> LoadCell(mem, c.fs[i].given.address - 16) == c.fs[i].token
    {
      var f := c.fs[i];
      FrameFacts(p, init, c.fs, i);
      forall n | 0 <= n < |f.context.saved|
        ensures LoadCell(mem, f.context.csp.address - p.Size() + 16 * n) == f.context.saved[n]
      {
        FrameReserved(p, init, c.fs, i, f.context.csp.address - p.Size() + 16 * n);
      }
      if p.extra == 16 {
        TokenReserved(p, init, c.fs, i);
      }
    }
  }

  lemma WorkKeepsInv(p: Protocol, init: Init, c: Config, d: Config)
    requires Inv(p, init, c) && Work(p, init, c, d)
    ensures Inv(p, init, d)
  {
    forall stack, x | Reserved(p, init, c.fs, stack, x)
      ensures LoadCell(d.s.mem, x) == LoadCell(c.s.mem, x)
    {
      WorkKeepsReserved(p, init, c, d, stack, x);
    }
    StoredKept(p, init, c, d.s.mem);
  }

  lemma CallKeepsInv(p: Protocol, init: Init, c: Config, d: Config, k: nat, token: Cap)
    requires Inv(p, init, c) && Call(p, init, c, d, k, token)
    ensures Inv(p, init, d)
  {
    hide Reserved, Stored, Given, MayCall, MayEnter, WordsAt;
    forall stack, x | Reserved(p, init, c.fs, stack, x)
      ensures LoadCell(d.s.mem, x) == LoadCell(c.s.mem, x)
    {
      CallKeepsReserved(p, init, c, d, k, token, stack, x);
    }
    StoredKept(p, init, c, d.s.mem);
    NewFrameStored(p, init, c, d, k, token);
    assert Front(d.fs) == c.fs;
  }

  lemma NewFrameStored(p: Protocol, init: Init, c: Config, d: Config, k: nat, token: Cap)
    requires Call(p, init, c, d, k, token) && Stored(p, d.s.mem, c.fs)
    ensures Stored(p, d.s.mem, d.fs)
  {
    hide Given, Slots;
    forall i | 0 <= i < |d.fs|
      ensures WordsAt(d.s.mem, d.fs[i].context.csp.address - p.Size(), d.fs[i].context.saved)
      ensures p.extra == 16 ==> LoadCell(d.s.mem, d.fs[i].given.address - 16) == d.fs[i].token
    {
      if i < |c.fs| {
        assert d.fs[i] == c.fs[i];
      }
    }
  }

  /** A return resumes the context that was suspended last, stack pointer and registers alike. */
  lemma ReturnRestores(p: Protocol, init: Init, c: Config, d: Config)
    requires Inv(p, init, c) && Return(p, init, c, d)
    ensures Inv(p, init, d) && ContextOf(p, d.s) == Last(c.fs).context
  {
    var f := Last(c.fs);
    var words := SavedRegs(p, d.s.regs);
    assert WordsAt(c.s.mem, f.context.csp.address - p.Size(), f.context.saved);
    forall i | 0 <= i < |words|
      ensures words[i] == f.context.saved[i]
    {
    }
    assert d.s.slots == Slots(p, init, Front(c.fs));
    assert forall i :: 0 <= i < |d.fs| ==> d.fs[i] == c.fs[i];
  }

  // ---------------------------------------------------------------- Whole runs

  /** Before the first call the invariant holds. */
  lemma StartKeepsInv(p: Protocol, init: Init, regs: seq<Cap>, mem: Cells)
    requires p.Valid() && init.Valid() && |regs| == 31
    ensures Inv(p, init, Config(State(init.root, regs, mem, init.slots), []))
  {
  }

  ghost predicate Step(p: Protocol, init: Init, c: Config, d: Config) {
    || (exists k, token :: Call(p, init, c, d, k, token))
    || Return(p, init, c, d)
    || Work(p, init, c, d)
  }

  ghost predicate Run(p: Protocol, init: Init, h: seq<Config>) {
    h != [] && Inv(p, init, h[0]) && forall i :: 0 <= i < |h| - 1 ==> Step(p, init, h[i], h[i + 1])
  }

  lemma {:induction false} RunKeepsInv(p: Protocol, init: Init, h: seq<Config>, i: nat)
    requires Run(p, init, h) && i < |h|
    ensures Inv(p, init, h[i])
  {
    if i > 0 {
      RunKeepsInv(p, init, h, i - 1);
      var c, d := h[i - 1], h[i];
      assert Step(p, init, c, d);
      if Return(p, init, c, d) {
        ReturnRestores(p, init, c, d);
      } else if Work(p, init, c, d) {
        WorkKeepsInv(p, init, c, d);
      } else {
        var k, token :| Call(p, init, c, d, k, token);
        CallKeepsInv(p, init, c, d, k, token);
      }
    }
  }

  function Contexts(fs: Frames): seq<Context> {
    seq(|fs|, i requires 0 <= i < |fs| => fs[i].context)
  }

  /** The abstract view: the context now, and the contexts of the suspended callers. */
  function Abstract(p: Protocol, c: Config): CallStack.Machine<Context>
    requires p.Valid() && |c.s.regs| == 31
  {
    CallStack.Machine(ContextOf(p, c.s), Contexts(c.fs))
  }

  /** Every step is a step of the abstract call stack, of the same kind. */
  lemma StepRefines(p: Protocol, init: Init, c: Config, d: Config)
    requires Inv(p, init, c) && Step(p, init, c, d)
    ensures |d.s.regs| == 31
    ensures Return(p, init, c, d) ==> CallStack.Returns(Abstract(p, c), Abstract(p, d))
    ensures (exists k, token :: Call(p, init, c, d, k, token)) ==> CallStack.Calls(Abstract(p, c), Abstract(p, d))
    ensures CallStack.Step(Abstract(p, c), Abstract(p, d))
  {
    if Return(p, init, c, d) {
      ReturnRestores(p, init, c, d);
      assert Contexts(d.fs) == Contexts(c.fs)[..|c.fs| - 1];
    }
    if k, token :| Call(p, init, c, d, k, token) {
      assert Contexts(d.fs) == Contexts(c.fs) + [ContextOf(p, c.s)];
    }
  }

  /** A run that starts with a call and ends with the return that matches it. */
  ghost predicate WholeCall(p: Protocol, init: Init, h: seq<Config>) {
    && Run(p, init, h) && |h| >= 3
    && (exists k, token :: Call(p, init, h[0], h[1], k, token))
    && Return(p, init, h[|h| - 2], h[|h| - 1])
    && |h[|h| - 1].fs| == |h[0].fs|
    && forall j :: 0 < j < |h| - 1 ==> |h[j].fs| > |h[0].fs|
  }

  lemma SameContext(p: Protocol, s: State, t: State)
    requires p.Valid() && |s.regs| == |t.regs| == 31 && ContextOf(p, s) == ContextOf(p, t)
    ensures s.csp == t.csp && s.slots == t.slots
    ensures forall i :: 0 <= i < |p.saved| ==> p.saved[i] < 31 && s.regs[p.saved[i]] == t.regs[p.saved[i]]
  {
    var x, y := SavedRegs(p, s.regs), SavedRegs(p, t.regs);
    assert ContextOf(p, s).saved == x && ContextOf(p, t).saved == y;
    assert forall i :: 0 <= i < |p.saved| ==> x[i] == s.regs[p.saved[i]] && y[i] == t.regs[p.saved[i]];
  }

  /**
   * Over every run between a call and its matching return, re-entrant calls included, the caller gets
   * back its stack pointer and its saved registers, and every slot holds what it held before the call.
   */
  lemma WholeCallRestores(p: Protocol, init: Init, h: seq<Config>)
    requires WholeCall(p, init, h)
    ensures |h[0].s.regs| == |h[|h| - 1].s.regs| == 31
    ensures ContextOf(p, h[|h| - 1].s) == ContextOf(p, h[0].s)
    ensures h[|h| - 1].s.csp == h[0].s.csp && h[|h| - 1].s.slots == h[0].s.slots
    ensures forall i :: 0 <= i < |p.saved| ==>
              p.saved[i] < 31 && h[|h| - 1].s.regs[p.saved[i]] == h[0].s.regs[p.saved[i]]
  {
    hide Step, Call, Return, Inv, Abstract, ContextOf;
    hide CallStack.Step, CallStack.Calls, CallStack.Returns;
    forall i | 0 <= i < |h|
      ensures |h[i].s.regs| == 31 && Inv(p, init, h[i])
    {
      RunKeepsInv(p, init, h, i);
      InvRegs(p, init, h[i]);
    }
    assert p.Valid() by { InvRegs(p, init, h[0]); }
    var a := seq(|h|, i requires 0 <= i < |h| => Abstract(p, h[i]));
    forall i | 0 <= i < |h|
      ensures |a[i].callers| == |h[i].fs| && a[i].running == ContextOf(p, h[i].s)
    {
      AbstractParts(p, h[i]);
    }
    forall i | 0 <= i < |a| - 1
      ensures CallStack.Step(a[i], a[i + 1])
    {
      StepRefines(p, init, h[i], h[i + 1]);
    }
    StepRefines(p, init, h[0], h[1]);
    StepKinds(p, init, h[|h| - 2], h[|h| - 1]);
    StepRefines(p, init, h[|h| - 2], h[|h| - 1]);
    CallStack.MatchingReturn(a);
    SameContext(p, h[|h| - 1].s, h[0].s);
  }

  /** The matching return leaves the compartment that the call entered, with the same frame. */
  lemma WholeCallFrames(p: Protocol, init: Init, h: seq<Config>)
    requires WholeCall(p, init, h)
    ensures h[|h| - 2].fs == h[1].fs && h[|h| - 1].fs == h[0].fs
  {
    hide Step, Call, Return, Inv;
    var g := seq(|h|, i requires 0 <= i < |h| => h[i].fs);
    forall i | 0 <= i < |h| - 1
      ensures CallStack.Nests(g[i], g[i + 1])
    {
      StepNests(p, init, h[i], h[i + 1]);
    }
    CallStack.MatchingFrames(g);
  }

  lemma StepNests(p: Protocol, init: Init, c: Config, d: Config)
    requires Step(p, init, c, d)
    ensures CallStack.Nests(c.fs, d.fs)
  {
  }

  lemma StepKinds(p: Protocol, init: Init, c: Config, d: Config)
    requires Return(p, init, c, d)
    ensures Step(p, init, c, d)
  {
  }

  lemma InvRegs(p: Protocol, init: Init, c: Config)
    requires Inv(p, init, c)
    ensures p.Valid() && |c.s.regs| == 31
  {
  }

  lemma AbstractParts(p: Protocol, c: Config)
    requires p.Valid() && |c.s.regs| == 31
    ensures |Abstract(p, c).callers| == |c.fs| && Abstract(p, c).running == ContextOf(p, c.s)
  {
  }
}
