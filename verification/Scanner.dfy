/**
 * The state of the one-pass scanner in `printf_core` and the invariant that ties it to the meaning of
 * the format string: what was output, the text that is still pending, and the meaning of the rest
 * always make up the whole.
 */
module Scanner {
  import opened Digits
  import opened Strings
  import opened Fields
  import opened Format

  datatype Phase = IDLE | FORMAT | RESET

  datatype Feat = ZERO_PAD | LEFT_ALIGN | SIZE_LONG | SIGN_SPACE | SIGN_PLUS | HEX | ALTERNATE

  predicate HasFeat(mods: string, f: Feat) {
    match f
    case ZERO_PAD => ZeroPad(mods)
    case LEFT_ALIGN => LeftAlign(mods)
    case SIZE_LONG => SizeLong(mods)
    case SIGN_SPACE => SignSpace(mods)
    case SIGN_PLUS => SignPlus(mods)
    case HEX => false
    case ALTERNATE => Alternate(mods)
  }

  /** The flags that a run of modifiers amounts to. */
  ghost function Feats(mods: string): set<Feat> {
    set f: Feat | HasFeat(mods, f)
  }

  /** What the scanner has produced so far: output, stored counts, and arguments consumed. */
  datatype Progress = Progress(out: string, counts: seq<Count>, next: nat)

  /** The format string, its arguments and the room of the sink. */
  datatype Job = Job(fmt: string, args: seq<Slot>, room: Room)
  {
    function Meaning(): string { Render(Parse(fmt), args) }
    function Counts(): seq<Count> { Stores(Parse(fmt), args, 0, room) }

    /** Progress `g`, then the verbatim text `text`, then the meaning of `fmt[from..]` is everything. */
    ghost predicate Continues(g: Progress, text: string, from: nat) {
      && from <= |fmt| && g.next <= |args|
      && g.out + text + Render(Parse(fmt[from..]), args[g.next..]) == Meaning()
      && g.counts + Stores(Parse(fmt[from..]), args[g.next..], |g.out + text|, room) == Counts()
    }

    ghost predicate Invariant(phase: Phase, feat: set<Feat>, width: nat, a: nat, p: nat, g: Progress) {
      match phase
      case RESET => Continues(g, "", p)
      case IDLE => a <= p <= |fmt| && Continues(g, fmt[a..p], p)
      case FORMAT =>
        && a < p <= |fmt| && fmt[a] == '%' && AllModifiers(fmt[a + 1..p])
        && feat == Feats(fmt[a + 1..p]) && width == Width(fmt[a + 1..p])
        && Continues(g, "", a)
    }
  }

  lemma Start(j: Job)
    ensures j.Continues(Progress("", [], 0), "", 0)
  {
    assert j.fmt[0..] == j.fmt && j.args[0..] == j.args;
  }

  lemma Regroup<T>(a: seq<T>, b: seq<T>, c: seq<T>)
    ensures a + b + c == a + (b + c)
  {
  }

  /** If the first directive of what follows is known, it can be moved into the verbatim text. */
  lemma TakeDirective(j: Job, g: Progress, text: string, from: nat, d: Directive, to: nat)
    requires j.Continues(g, text, from) && from <= to <= |j.fmt|
    requires Parse(j.fmt[from..]) == [d] + Parse(j.fmt[to..])
    ensures var args := j.args[g.next..];
            var next := if d.Convert? && args != [] then g.next + 1 else g.next;
            var counts := g.counts + DirectiveStores(d, args, |g.out + text|, j.room);
            j.Continues(Progress(g.out, counts, next), text + DirectiveText(d, args), to)
    ensures g.next <= |j.args|
  {
    hide Field, Parse, Render, Stores, DirectiveText, DirectiveStores, Job.Meaning, Job.Counts;
    var args, ds := j.args[g.next..], Parse(j.fmt[to..]);
    var t := DirectiveText(d, args);
    var stored := DirectiveStores(d, args, |g.out + text|, j.room);
    RenderCons(d, ds, args);
    StoresCons(d, ds, args, |g.out + text|, j.room);
    assert d.Convert? && args != [] ==> args[1..] == j.args[g.next + 1..];
    Regroup(g.out + text, t, Render(ds, Rest(d, args)));
    Regroup(g.out, text, t);
    Regroup(g.counts, stored, Stores(ds, Rest(d, args), |g.out + text| + |t|, j.room));
  }

  /** An ordinary character joins the pending text. */
  lemma PassCharacter(j: Job, a: nat, p: nat, g: Progress)
    requires a <= p < |j.fmt| && j.fmt[p] != '%' && j.fmt[p] != NUL
    requires j.Continues(g, j.fmt[a..p], p)
    ensures j.Continues(g, j.fmt[a..p + 1], p + 1)
  {
    hide Field, Render, Stores, Job.Meaning, Job.Counts, Job.Continues;
    var s := j.fmt[p..];
    var d := Text([s[0]]);
    ParseText(s);
    assert s[1..] == j.fmt[p + 1..];
    TakeDirective(j, g, j.fmt[a..p], p, d, p + 1);
    assert j.fmt[a..p + 1] == j.fmt[a..p] + [s[0]];
    assert g.counts + [] == g.counts;
  }

  /** The pending text is flushed when the next specification starts. */
  lemma Flush(j: Job, text: string, p: nat, g: Progress)
    requires j.Continues(g, text, p)
    ensures j.Continues(g.(out := g.out + text), "", p)
  {
    hide Parse, Render, Stores, Job.Meaning, Job.Counts;
    assert g.out + text + "" == g.out + text;
  }

  /** A specification ended: its directive is rendered against the next argument. */
  lemma EndSpecification(j: Job, a: nat, p: nat, g: Progress)
    requires a < p < |j.fmt| && j.fmt[a] == '%' && AllModifiers(j.fmt[a + 1..p])
    requires !IsModifier(j.fmt[p]) && j.fmt[p] != NUL
    requires j.Continues(g, "", a)
    ensures var d := Classify(j.fmt[a + 1..p], j.fmt[p]);
            var args := j.args[g.next..];
            var next := if d.Convert? && args != [] then g.next + 1 else g.next;
            var counts := g.counts + DirectiveStores(d, args, |g.out|, j.room);
            j.Continues(Progress(g.out, counts, next), DirectiveText(d, args), p + 1)
    ensures g.next <= |j.args|
  {
    hide Field, Parse, Classify, Render, Stores, DirectiveText, DirectiveStores, Job.Continues;
    var s, k := j.fmt[a..], p - a;
    assert s[1..k] == j.fmt[a + 1..p] && s[k + 1..] == j.fmt[p + 1..];
    ParseSpecification(s, k);
    var d := Classify(j.fmt[a + 1..p], j.fmt[p]);
    TakeDirective(j, g, "", a, d, p + 1);
    var t := DirectiveText(d, j.args[g.next..]);
    assert g.out + "" == g.out && "" + t == t;
  }

  /** `%…%` */
  lemma EndPercent(j: Job, a: nat, p: nat, g: Progress)
    requires a < p < |j.fmt| && j.fmt[a] == '%' && AllModifiers(j.fmt[a + 1..p])
    requires j.fmt[p] == '%' && j.Continues(g, "", a)
    ensures j.Continues(g.(out := g.out + "%"), "", p + 1)
  {
    hide Field, Parse, Render, Stores, Job.Meaning, Job.Counts;
    EndSpecification(j, a, p, g);
    assert g.counts + [] == g.counts;
    Flush(j, "%", p + 1, g);
  }

  /** A conversion that has an argument. */
  lemma EndConversion(j: Job, a: nat, p: nat, g: Progress)
    requires a < p < |j.fmt| && j.fmt[a] == '%' && AllModifiers(j.fmt[a + 1..p])
    requires IsConversion(j.fmt[p]) && g.next < |j.args| && j.Continues(g, "", a)
    ensures var mods, arg := j.fmt[a + 1..p], j.args[g.next];
            var counts := g.counts + DirectiveStores(Convert(mods, j.fmt[p]), [arg], |g.out|, j.room);
            j.Continues(Progress(g.out + Field(mods, j.fmt[p], arg), counts, g.next + 1), "", p + 1)
  {
    hide Field, Parse, Render, Stores, Job.Meaning, Job.Counts;
    EndSpecification(j, a, p, g);
    var mods, arg := j.fmt[a + 1..p], j.args[g.next];
    var counts := g.counts + DirectiveStores(Convert(mods, j.fmt[p]), [arg], |g.out|, j.room);
    Flush(j, Field(mods, j.fmt[p], arg), p + 1, Progress(g.out, counts, g.next + 1));
  }

  lemma VerbatimText(mods: string, c: char, args: seq<Slot>, len: nat, room: Room)
    requires c != '%' && (IsConversion(c) ==> args == [] && !(c == 'p' && Alternate(mods)))
    ensures var d := Classify(mods, c);
            && DirectiveText(d, args) == "%" + mods + [c] && DirectiveStores(d, args, len, room) == []
            && (d.Convert? ==> args == [])
  {
    hide Field;
  }

  /** An unsupported letter, or a conversion without an argument: the source text becomes pending. */
  lemma EndVerbatim(j: Job, a: nat, p: nat, g: Progress)
    requires a < p < |j.fmt| && j.fmt[a] == '%' && AllModifiers(j.fmt[a + 1..p])
    requires !IsModifier(j.fmt[p]) && j.fmt[p] != NUL && j.fmt[p] != '%' && j.Continues(g, "", a)
    requires IsConversion(j.fmt[p]) ==> g.next == |j.args| && !(j.fmt[p] == 'p' && Alternate(j.fmt[a + 1..p]))
    ensures j.Continues(g, j.fmt[a..p + 1], p + 1)
  {
    hide Field, Parse, Render, Stores, Job.Meaning, Job.Counts, Classify, DirectiveText, DirectiveStores, Job.Continues;
    EndSpecification(j, a, p, g);
    VerbatimText(j.fmt[a + 1..p], j.fmt[p], j.args[g.next..], |g.out|, j.room);
    assert g.counts + [] == g.counts;
    assert j.fmt[a..p + 1] == "%" + j.fmt[a + 1..p] + [j.fmt[p]];
  }

  /** `%#p` without an argument. */
  lemma EndVanished(j: Job, a: nat, p: nat, g: Progress)
    requires a < p < |j.fmt| && j.fmt[a] == '%' && AllModifiers(j.fmt[a + 1..p])
    requires j.fmt[p] == 'p' && Alternate(j.fmt[a + 1..p]) && g.next == |j.args| && j.Continues(g, "", a)
    ensures j.Continues(g, "", p + 1)
  {
    hide Field, Parse, Render, Stores, Job.Meaning, Job.Counts;
    EndSpecification(j, a, p, g);
    assert g.counts + [] == g.counts;
  }

  lemma ParseEnd(s: string)
    requires s == [] || s[0] == NUL
    ensures Parse(s) == []
  {
  }

  lemma RenderOne(text: string, args: seq<Slot>, len: nat, room: Room)
    ensures Render([Text(text)], args) == text && Stores([Text(text)], args, len, room) == []
    ensures Render([], args) == "" && Stores([], args, len, room) == []
  {
    hide Field;
    assert [Text(text)][1..] == [];
  }

  /** Nothing follows the last character, or a NUL: pending text is all that is missing. */
  lemma Finish(j: Job, phase: Phase, feat: set<Feat>, width: nat, a: nat, p: nat, g: Progress)
    requires j.Invariant(phase, feat, width, a, p, g)
    requires p == |j.fmt| || (p < |j.fmt| && j.fmt[p] == NUL)
    ensures j.Counts() == g.counts
    ensures j.Meaning() == if phase.RESET? then g.out else g.out + j.fmt[a..p]
  {
    hide Field, Parse, Render, Stores, Job.Meaning, Job.Counts, Feats, Width;
    var args, text := j.args[g.next..], if phase.RESET? then "" else j.fmt[a..p];
    RenderOne(text, args, |g.out|, j.room);
    RenderOne(text, args, |g.out + text|, j.room);
    assert g.counts + [] == g.counts && g.out + "" == g.out && g.out + text + "" == g.out + text;
    if phase.FORMAT? {
      var s, k := j.fmt[a..], p - a;
      assert s[1..k] == j.fmt[a + 1..p] && s[..k] == j.fmt[a..p];
      ParseUnfinished(s, k);
    } else {
      ParseEnd(j.fmt[p..]);
    }
  }

  // ---------------------------------------------------------------- Modifiers

  lemma WidthStep(mods: string, c: char)
    ensures Width(mods + [c]) == if '0' <= c <= '9' then 10 * Width(mods) + (c as int - '0' as int) else Width(mods)
  {
    WidthDigitsStep(mods, c);
    var w := WidthDigits(mods);
    if '0' <= c <= '9' {
      ValueStep(w, c, 10);
    } else {
      assert w + [] == w;
    }
  }

  lemma {:induction false} WidthDigitsAreDigits(mods: string)
    ensures AllDigits(WidthDigits(mods), 10)
  {
    if mods != [] {
      WidthDigitsAreDigits(mods[..|mods| - 1]);
    }
  }

  lemma {:induction false} LeadingDigitPositive(s: string)
    requires AllDigits(s, 10)
    ensures Value(s, 10) == 0 ==> s == [] || s[0] == '0'
    ensures s != [] && s[0] != '0' ==> Value(s, 10) > 0
  {
    if |s| == 1 {
      assert s[..0] == [];
    } else if s != [] {
      LeadingDigitPositive(s[..|s| - 1]);
    }
  }

  /** A zero digit is a flag until a non-zero digit has been seen; afterwards it belongs to the width. */
  lemma ZeroPadStep(mods: string, c: char)
    ensures ZeroPad(mods + [c]) <==> ZeroPad(mods) || (c == '0' && Width(mods) == 0)
  {
    WidthDigitsStep(mods, c);
    WidthDigitsAreDigits(mods);
    LeadingDigitPositive(WidthDigits(mods));
  }

  /** The flag that a modifier raises, given the width so far. */
  function RaisedBy(c: char, width: nat): set<Feat> {
    if c == '0' && width == 0 then {ZERO_PAD}
    else if c == '-' then {LEFT_ALIGN}
    else if c == 'l' || c == 'z' || c == 't' then {SIZE_LONG}
    else if c == ' ' then {SIGN_SPACE}
    else if c == '+' then {SIGN_PLUS}
    else if c == '#' then {ALTERNATE}
    else {}
  }

  /** One modifier updates flags and width the way the scanner does. */
  lemma ModifierStep(mods: string, c: char)
    ensures Width(mods + [c]) == if '0' <= c <= '9' then 10 * Width(mods) + (c as int - '0' as int) else Width(mods)
    ensures Feats(mods + [c]) == Feats(mods) + RaisedBy(c, Width(mods))
  {
    hide ZeroPad, Width;
    WidthStep(mods, c);
    ZeroPadStep(mods, c);
    var m, w := mods + [c], Width(mods);
    assert forall x: char :: x in m <==> x in mods || x == c;
    forall f: Feat
      ensures HasFeat(m, f) <==> HasFeat(mods, f) || f in RaisedBy(c, w)
    {
    }
  }

  lemma FeatsMean(mods: string)
    ensures forall f: Feat :: f in Feats(mods) <==> HasFeat(mods, f)
  {
  }
}
