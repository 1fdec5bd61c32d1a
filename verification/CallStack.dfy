/**
 * The abstract machine that every compartment switch refines: something is running, and a list of
 * callers is suspended. A call suspends the running context; a return resumes the last suspended one.
 */
module CallStack {

  datatype Machine<C> = Machine(running: C, callers: seq<C>)

  predicate Calls<C(==)>(m: Machine<C>, n: Machine<C>) {
    n.callers == m.callers + [m.running]
  }

  predicate Returns<C(==)>(m: Machine<C>, n: Machine<C>) {
    m.callers != [] && n.callers == m.callers[..|m.callers| - 1] && n.running == m.callers[|m.callers| - 1]
  }

  predicate Works<C(==)>(m: Machine<C>, n: Machine<C>) {
    n.callers == m.callers
  }

  predicate Step<C(==)>(m: Machine<C>, n: Machine<C>) {
    Calls(m, n) || Returns(m, n) || Works(m, n)
  }

  predicate Run<C(==)>(h: seq<Machine<C>>) {
    h != [] && forall i :: 0 <= i < |h| - 1 ==> Step(h[i], h[i + 1])
  }

  /** One push, one pop, or no change. */
  predicate Nests<C(==)>(a: seq<C>, b: seq<C>) {
    b == a || (|b| == |a| + 1 && b[..|a|] == a) || (a != [] && b == a[..|a| - 1])
  }

  /** While a call is active, its caller and everybody below it stay suspended unchanged. */
  lemma {:induction false} SuspendedUntouched<C>(h: seq<seq<C>>, n: nat, i: nat)
    requires i < |h| && forall j :: 0 <= j < |h| - 1 ==> Nests(h[j], h[j + 1])
    requires forall j :: 0 <= j < |h| ==> |h[j]| > n
    ensures h[i][..n + 1] == h[0][..n + 1]
  {
    if i > 0 {
      SuspendedUntouched(h, n, i - 1);
      assert Nests(h[i - 1], h[i]);
      assert |h[i - 1]| > n && |h[i]| > n;
    }
  }

  /** Between a call and the return that matches it: what was pushed is popped again, and nothing else. */
  lemma MatchingFrames<T>(g: seq<seq<T>>)
    requires |g| >= 3 && forall i :: 0 <= i < |g| - 1 ==> Nests(g[i], g[i + 1])
    requires |g[|g| - 1]| == |g[0]| && forall i :: 0 < i < |g| - 1 ==> |g[i]| > |g[0]|
    ensures g[|g| - 2] == g[1] && g[|g| - 1] == g[0]
  {
    var n, m := |g[0]|, |g| - 2;
    assert Nests(g[0], g[1]) && Nests(g[m], g[m + 1]);
    var body := g[1..m + 1];
    SuspendedUntouched(body, n, m - 1);
    assert g[1][..n + 1] == g[1] && g[m][..n + 1] == g[m];
  }

  /** A run that starts with a call and ends with the return that matches it. */
  predicate WholeCall<C(==)>(h: seq<Machine<C>>) {
    && |h| >= 3 && Run(h)
    && Calls(h[0], h[1]) && Returns(h[|h| - 2], h[|h| - 1])
    && |h[|h| - 1].callers| == |h[0].callers|
    && forall j :: 0 < j < |h| - 1 ==> |h[j].callers| > |h[0].callers|
  }

  /** Whatever happens in between, the matching return resumes exactly what was suspended. */
  lemma MatchingReturn<C>(h: seq<Machine<C>>)
    requires WholeCall(h)
    ensures h[|h| - 1] == h[0]
  {
    var g := seq(|h|, i requires 0 <= i < |h| => h[i].callers);
    forall i | 0 <= i < |h| - 1
      ensures Nests(g[i], g[i + 1])
    {
      assert Step(h[i], h[i + 1]);
    }
    MatchingFrames(g);
    assert h[1].callers == h[0].callers + [h[0].running];
  }
}
