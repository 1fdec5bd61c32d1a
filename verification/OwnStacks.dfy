/**
 * Frames of suspended callers for the switches whose descriptors are never written, so that every entry
 * into a compartment starts at the same place of the compartment's own stack.
 */
module OwnStacks {
  import opened Capability
  import opened SwapSwitch

  /** A suspended call: the compartment that was entered, and what there is to know about its caller. */
  datatype Activation<T> = Activation(callee: nat, caller: T)

  /** The stack on which activation `i` runs; number 0 is the root's. */
  function Home<T>(fs: seq<Activation<T>>, i: nat): nat
    requires i <= |fs|
  {
    if i == 0 then 0 else fs[i - 1].callee + 1
  }

  /** The stack of the running code. */
  function Running<T>(fs: seq<Activation<T>>): nat { Home(fs, |fs|) }

  function Stacks(root: Stack, tops: seq<Cap>): (r: seq<Stack>)
    ensures |r| == |tops| + 1
  {
    [root] + seq(|tops|, i requires 0 <= i < |tops| => StackOf(tops[i]))
  }

  /** `words` lie in stack number `home`, directly below address `top`. */
  datatype Place = Place(home: nat, top: int, words: seq<Cap>)
  {
    function Bottom(): int { top - 16 * |words| }

    predicate Fits(stack: Stack) { stack.base <= Bottom() && top <= stack.base + stack.length }
  }

  /** Every frame is intact on a stack of its own, and none of these is the running one. */
  predicate Intact(stacks: seq<Stack>, mem: Cells, ps: seq<Place>, running: nat) {
    && Distinct(stacks) && running < |stacks|
    && (forall i :: 0 <= i < |ps| ==>
          && ps[i].home < |stacks| && ps[i].home != running
          && ps[i].Fits(stacks[ps[i].home]) && WordsAt(mem, ps[i].Bottom(), ps[i].words))
    && (forall i, j :: 0 <= i < j < |ps| ==> ps[i].home != ps[j].home)
  }

  /** Memory in all stacks but one is the same. */
  ghost predicate OthersSame(stacks: seq<Stack>, m: Cells, n: Cells, running: nat) {
    forall i, x {:trigger stacks[i].Holds(x), LoadCell(n, x)} ::
      0 <= i < |stacks| && i != running && stacks[i].Holds(x) ==> LoadCell(n, x) == LoadCell(m, x)
  }

  lemma NothingChanged(stacks: seq<Stack>, mem: Cells, running: nat)
    ensures OthersSame(stacks, mem, mem, running)
  {
  }

  lemma PlaceKept(stacks: seq<Stack>, m: Cells, n: Cells, running: nat, p: Place)
    requires OthersSame(stacks, m, n, running) && p.home < |stacks| && p.home != running
    requires p.Fits(stacks[p.home]) && WordsAt(m, p.Bottom(), p.words)
    ensures WordsAt(n, p.Bottom(), p.words)
  {
    forall i | 0 <= i < |p.words|
      ensures LoadCell(n, p.Bottom() + 16 * i) == p.words[i]
    {
      assert stacks[p.home].Holds(p.Bottom() + 16 * i);
    }
  }

  /** Code that keeps to its own stack keeps all frames intact. */
  lemma WorkKeeps(stacks: seq<Stack>, m: Cells, n: Cells, ps: seq<Place>, running: nat)
    requires Intact(stacks, m, ps, running) && OthersSame(stacks, m, n, running)
    ensures Intact(stacks, n, ps, running)
  {
    hide OthersSame, WordsAt, Place.Fits;
    forall i | 0 <= i < |ps|
      ensures WordsAt(n, ps[i].Bottom(), ps[i].words)
    {
      PlaceKept(stacks, m, n, running, ps[i]);
    }
  }

  lemma SaveIsLocal(stacks: seq<Stack>, m: Cells, n: Cells, p: Place)
    requires Distinct(stacks) && p.home < |stacks| && p.Fits(stacks[p.home])
    requires SameOutside(m, n, p.Bottom(), p.top)
    ensures OthersSame(stacks, m, n, p.home)
  {
    forall i, x | 0 <= i < |stacks| && i != p.home && stacks[i].Holds(x)
      ensures LoadCell(n, x) == LoadCell(m, x)
    {
      assert i < p.home ==> stacks[i].Disjoint(stacks[p.home]);
      assert p.home < i ==> stacks[p.home].Disjoint(stacks[i]);
    }
  }

  /** Saving a frame on the running stack and entering a compartment that is not active. */
  lemma SaveKeeps(stacks: seq<Stack>, m: Cells, n: Cells, ps: seq<Place>, p: Place, next: nat)
    requires Intact(stacks, m, ps, p.home) && p.Fits(stacks[p.home])
    requires SameOutside(m, n, p.Bottom(), p.top) && WordsAt(n, p.Bottom(), p.words)
    requires next < |stacks| && next != p.home && forall i :: 0 <= i < |ps| ==> ps[i].home != next
    ensures Intact(stacks, n, ps + [p], next)
  {
    SaveIsLocal(stacks, m, n, p);
    hide SameOutside;
    WorkKeeps(stacks, m, n, ps, p.home);
  }

  /** Going back to the last caller. */
  lemma DropKeeps(stacks: seq<Stack>, mem: Cells, ps: seq<Place>, running: nat)
    requires Intact(stacks, mem, ps, running) && ps != []
    ensures var p := ps[|ps| - 1];
            && WordsAt(mem, p.Bottom(), p.words)
            && Intact(stacks, mem, ps[..|ps| - 1], p.home)
  {
    hide WordsAt, Distinct, Place.Fits;
    var n := |ps| - 1;
    assert ps[n].home < |stacks|;
  }
}
