/**
 * What a format string means: it is parsed into directives, each directive is rendered against the
 * arguments left over by the directives before it, and the texts are concatenated.
 * This is the reference for the scanner of `src/freestanding/src/printf.c`.
 */
module Format {
  import opened Capability
  import opened Strings
  import opened Fields
  import opened CapText

  // ---------------------------------------------------------------- Parsing

  /**
   * `Text` is output as it stands, `Percent` is `%…%`, and `Convert` is `%`, modifiers and a
   * supported conversion letter.
   */
  datatype Directive = Text(text: string) | Percent(mods: string) | Convert(mods: string, conv: char)
  {
    /** The part of the format string that the directive was parsed from. */
    function Source(): string {
      match this
      case Text(text) => text
      case Percent(mods) => "%" + mods + "%"
      case Convert(mods, conv) => "%" + mods + [conv]
    }
  }

  predicate IsModifier(c: char) {
    '0' <= c <= '9' || c == '-' || c == 'l' || c == 'z' || c == 't' || c == ' ' || c == '+' || c == '#'
  }

  predicate AllModifiers(s: string) {
    forall i :: 0 <= i < |s| ==> IsModifier(s[i])
  }

  predicate IsConversion(c: char) {
    c == 's' || c == 'c' || c == 'n' || c == 'p' || c == 'x' || c == 'u' || c == 'i' || c == 'd'
  }

  /** Length of the longest prefix made of modifiers. */
  function ModifierRun(s: string): (k: nat)
    ensures k <= |s|
  {
    if s == [] || !IsModifier(s[0]) then 0 else 1 + ModifierRun(s[1..])
  }

  function Classify(mods: string, c: char): Directive {
    if c == '%' then Percent(mods)
    else if IsConversion(c) then Convert(mods, c)
    else Text("%" + mods + [c])
  }

  function Parse(s: string): seq<Directive> {
    if s == [] || s[0] == NUL then []
    else if s[0] != '%' then [Text([s[0]])] + Parse(s[1..])
    else
      var k := 1 + ModifierRun(s[1..]);
      if k == |s| || s[k] == NUL then [Text(s[..k])]
      else [Classify(s[1..k], s[k])] + Parse(s[k + 1..])
  }

  // ---------------------------------------------------------------- Rendering

  function Field(mods: string, conv: char, slot: Slot): string {
    match conv
    case 's' => Pad(StringArg(slot), Width(mods), LeftAlign(mods), ' ')
    case 'c' => [(slot.cap.address % 256) as char]
    case 'n' => ""
    case 'p' =>
      if Alternate(mods) && SignPlus(mods) then CapLine(ZeroInfo(slot.cap))
      else if Alternate(mods) then CapHalves(slot)
      else UnsignedField(mods, slot, true, true)
    case 'x' => UnsignedField(mods, slot, SizeLong(mods), true)
    case 'u' => UnsignedField(mods, slot, SizeLong(mods), false)
    case _ => SignedField(mods, slot)
  }

  /** A conversion without an argument is verbatim, except that `%#p` vanishes. */
  function Starved(mods: string, conv: char): string {
    if conv == 'p' && Alternate(mods) then "" else "%" + mods + [conv]
  }

  function DirectiveText(d: Directive, args: seq<Slot>): string {
    match d
    case Text(text) => text
    case Percent(_) => "%"
    case Convert(mods, conv) => if args == [] then Starved(mods, conv) else Field(mods, conv, args[0])
  }

  function Rest(d: Directive, args: seq<Slot>): seq<Slot> {
    if d.Convert? && args != [] then args[1..] else args
  }

  function Render(ds: seq<Directive>, args: seq<Slot>): string {
    if ds == [] then "" else DirectiveText(ds[0], args) + Render(ds[1..], Rest(ds[0], args))
  }

  /** How many bytes a sink can still take. */
  datatype Room = Unlimited | Limited(size: nat)
  {
    function Take(len: nat): nat {
      if Unlimited? then len else Min(len, size)
    }
  }

  /** A count that `%n` writes through its argument. */
  datatype Count = Count(target: Cap, value: nat)

  function DirectiveStores(d: Directive, args: seq<Slot>, len: nat, room: Room): seq<Count> {
    if d.Convert? && d.conv == 'n' && args != [] && args[0].cap.Deref()
    then [Count(args[0].cap, room.Take(len))] else []
  }

  /** All the counts that are stored when `len` bytes of output came before `ds`. */
  function Stores(ds: seq<Directive>, args: seq<Slot>, len: nat, room: Room): seq<Count> {
    if ds == [] then []
    else DirectiveStores(ds[0], args, len, room)
         + Stores(ds[1..], Rest(ds[0], args), len + |DirectiveText(ds[0], args)|, room)
  }

  // ---------------------------------------------------------------- Parsing in pieces

  lemma {:induction false} ModifierRunAt(s: string, k: nat)
    requires k <= |s| && AllModifiers(s[..k]) && (k == |s| || !IsModifier(s[k]))
    ensures ModifierRun(s) == k
  {
    if k > 0 {
      assert IsModifier(s[..k][0]);
      assert s[1..][..k - 1] == s[..k][1..];
      ModifierRunAt(s[1..], k - 1);
    }
  }

  lemma ParseText(s: string)
    requires s != [] && s[0] != '%' && s[0] != NUL
    ensures Parse(s) == [Text([s[0]])] + Parse(s[1..])
  {
  }

  /** A specification that is ended by a character which is not a modifier. */
  lemma ParseSpecification(s: string, k: nat)
    requires 1 <= k < |s| && s[0] == '%' && AllModifiers(s[1..k])
    requires !IsModifier(s[k]) && s[k] != NUL
    ensures Parse(s) == [Classify(s[1..k], s[k])] + Parse(s[k + 1..])
  {
    assert s[1..][..k - 1] == s[1..k];
    ModifierRunAt(s[1..], k - 1);
  }

  /** A specification that is cut off by the end of the format string. */
  lemma ParseUnfinished(s: string, k: nat)
    requires 1 <= k <= |s| && s[0] == '%' && AllModifiers(s[1..k])
    requires k == |s| || s[k] == NUL
    ensures Parse(s) == [Text(s[..k])]
  {
    assert s[1..][..k - 1] == s[1..k];
    ModifierRunAt(s[1..], k - 1);
  }

  lemma RenderCons(d: Directive, ds: seq<Directive>, args: seq<Slot>)
    ensures Render([d] + ds, args) == DirectiveText(d, args) + Render(ds, Rest(d, args))
  {
    assert ([d] + ds)[1..] == ds;
  }

  lemma StoresCons(d: Directive, ds: seq<Directive>, args: seq<Slot>, len: nat, room: Room)
    ensures Stores([d] + ds, args, len, room) ==
            DirectiveStores(d, args, len, room) + Stores(ds, Rest(d, args), len + |DirectiveText(d, args)|, room)
  {
    hide Field;
    assert ([d] + ds)[1..] == ds;
  }

  // ---------------------------------------------------------------- Properties of the meaning

  function Sources(ds: seq<Directive>): string {
    if ds == [] then "" else ds[0].Source() + Sources(ds[1..])
  }

  lemma {:induction false} ModifierRunIsModifiers(s: string)
    ensures AllModifiers(s[..ModifierRun(s)]) && NUL !in s[..ModifierRun(s)]
    ensures var k := ModifierRun(s); k < |s| ==> !IsModifier(s[k])
  {
    if s != [] && IsModifier(s[0]) {
      ModifierRunIsModifiers(s[1..]);
      var k := ModifierRun(s);
      assert s[..k] == [s[0]] + s[1..][..k - 1];
    }
  }

  lemma {:induction false} CStringSkip(s: string, k: nat)
    requires k <= |s| && NUL !in s[..k]
    ensures CString(s) == s[..k] + CString(s[k..])
  {
    if k > 0 {
      assert s[0] == s[..k][0] && s[1..][..k - 1] == s[..k][1..] && s[1..][k - 1..] == s[k..];
      CStringSkip(s[1..], k - 1);
    }
  }

  /** Parsing loses nothing: the sources of the directives spell the format string. */
  lemma {:induction false} ParseLossless(s: string)
    ensures Sources(Parse(s)) == CString(s)
    decreases |s|
  {
    if s == [] || s[0] == NUL {
    } else if s[0] != '%' {
      ParseLossless(s[1..]);
      assert Parse(s)[1..] == Parse(s[1..]);
    } else {
      var k := 1 + ModifierRun(s[1..]);
      SpecificationSource(s, k);
      if k == |s| || s[k] == NUL {
        assert Sources([Text(s[..k])][1..]) == "";
      } else {
        ParseLossless(s[k + 1..]);
        var d := Classify(s[1..k], s[k]);
        assert Parse(s) == [d] + Parse(s[k + 1..]);
        assert Parse(s)[1..] == Parse(s[k + 1..]);
      }
    }
  }

  lemma SpecificationHead(s: string, k: nat)
    requires s != [] && s[0] == '%' && k == 1 + ModifierRun(s[1..])
    ensures NUL !in s[..k]
  {
    ModifierRunIsModifiers(s[1..]);
    assert s[..k] == ['%'] + s[1..][..k - 1];
  }

  lemma Pieces(s: string, k: nat)
    requires 1 <= k < |s| && s[0] == '%'
    ensures "%" + s[1..k] + [s[k]] == s[..k + 1]
  {
    var t := s[..k + 1];
    assert t[..1] == "%" && t[1..k] == s[1..k] && t[k..] == [s[k]];
    assert t == t[..1] + t[1..k] + t[k..];
  }

  lemma ClassifySource(mods: string, c: char)
    ensures Classify(mods, c).Source() == "%" + mods + [c]
  {
  }

  /** A specification is parsed into a directive with the same characters. */
  lemma SpecificationSource(s: string, k: nat)
    requires s != [] && s[0] == '%' && k == 1 + ModifierRun(s[1..])
    ensures if k == |s| || s[k] == NUL then CString(s) == s[..k]
            else CString(s) == Classify(s[1..k], s[k]).Source() + CString(s[k + 1..])
  {
    hide Classify, CString, ModifierRun, IsModifier;
    SpecificationHead(s, k);
    if k == |s| || s[k] == NUL {
      CStringPrefix(s, k);
    } else {
      ClassifySource(s[1..k], s[k]);
      Pieces(s, k);
      assert s[..k + 1] == s[..k] + [s[k]];
      assert NUL !in s[..k + 1];
      CStringSkip(s, k + 1);
    }
  }

  predicate VerbatimWithoutArgs(d: Directive) {
    !d.Percent? && !(d.Convert? && d.conv == 'p' && Alternate(d.mods))
  }

  lemma {:induction false} StarvedLength(ds: seq<Directive>)
    ensures |Render(ds, [])| <= |Sources(ds)|
    ensures (forall d <- ds :: VerbatimWithoutArgs(d)) ==> Render(ds, []) == Sources(ds)
    ensures (exists d <- ds :: !VerbatimWithoutArgs(d)) ==> |Render(ds, [])| < |Sources(ds)|
  {
    if ds != [] {
      assert Rest(ds[0], []) == [];
      StarvedLength(ds[1..]);
      assert forall d :: d in ds <==> d == ds[0] || d in ds[1..];
      assert VerbatimWithoutArgs(ds[0]) ==> DirectiveText(ds[0], []) == ds[0].Source();
    }
  }

  /** Without arguments the output is the format string itself, unless it has a `%…%` or a `%#p`. */
  lemma StarvedFormatIsVerbatim(s: string)
    ensures Render(Parse(s), []) == CString(s) <==> forall d <- Parse(s) :: VerbatimWithoutArgs(d)
  {
    ParseLossless(s);
    StarvedLength(Parse(s));
  }

  /** What the comment on `printf_core` promises: a conversion without an argument stands as it is. */
  function Promised(ds: seq<Directive>, args: seq<Slot>): string {
    if ds == [] then ""
    else
      (if ds[0].Convert? && args == [] then ds[0].Source() else DirectiveText(ds[0], args))
      + Promised(ds[1..], Rest(ds[0], args))
  }

  predicate AlternatePointer(d: Directive) { d.Convert? && d.conv == 'p' && Alternate(d.mods) }

  /** Every alternate pointer conversion has fewer conversions in front of it than there are arguments. */
  predicate PointersSupplied(ds: seq<Directive>, args: nat) {
    forall i :: 0 <= i < |ds| && AlternatePointer(ds[i]) ==> Conversions(ds[..i]) < args
  }

  lemma PointersSuppliedCons(ds: seq<Directive>, args: seq<Slot>)
    requires ds != []
    ensures PointersSupplied(ds, |args|) <==>
            (AlternatePointer(ds[0]) ==> args != []) && PointersSupplied(ds[1..], |Rest(ds[0], args)|)
  {
    hide AlternatePointer;
    forall i | 0 < i < |ds|
      ensures Conversions(ds[..i]) == (if ds[0].Convert? then 1 else 0) + Conversions(ds[1..][..i - 1])
    {
      assert ds[..i][1..] == ds[1..][..i - 1];
    }
    assert forall i :: 0 <= i < |ds| - 1 ==> ds[1..][i] == ds[i + 1];
    if PointersSupplied(ds[1..], |Rest(ds[0], args)|) && (AlternatePointer(ds[0]) ==> args != []) {
      forall i | 0 <= i < |ds| && AlternatePointer(ds[i])
        ensures Conversions(ds[..i]) < |args|
      {
        assert i > 0 ==> ds[1..][i - 1] == ds[i];
      }
    }
  }

  lemma {:induction false} PromisedLength(ds: seq<Directive>, args: seq<Slot>)
    ensures if PointersSupplied(ds, |args|) then Render(ds, args) == Promised(ds, args)
            else |Render(ds, args)| < |Promised(ds, args)|
  {
    hide Field;
    if ds != [] {
      hide PointersSupplied;
      PromisedLength(ds[1..], Rest(ds[0], args));
      PointersSuppliedCons(ds, args);
    }
  }

  /** The promise is kept exactly if no alternate pointer conversion goes without an argument. */
  lemma PromiseKept(s: string, args: seq<Slot>)
    ensures Render(Parse(s), args) == Promised(Parse(s), args) <==> PointersSupplied(Parse(s), |args|)
  {
    PromisedLength(Parse(s), args);
  }

  /** The number of arguments a format asks for. */
  function Conversions(ds: seq<Directive>): nat {
    if ds == [] then 0 else (if ds[0].Convert? then 1 else 0) + Conversions(ds[1..])
  }

  function Leftover(ds: seq<Directive>, args: seq<Slot>): seq<Slot> {
    if ds == [] then args else Leftover(ds[1..], Rest(ds[0], args))
  }

  /** Arguments are consumed from the left, one per conversion, and never more than there are. */
  lemma {:induction false} ArgumentsConsumed(ds: seq<Directive>, args: seq<Slot>)
    ensures Leftover(ds, args) == args[Min(|args|, Conversions(ds))..]
  {
    if ds != [] {
      ArgumentsConsumed(ds[1..], Rest(ds[0], args));
    }
  }

  lemma DirectiveIgnoresSurplus(d: Directive, args: seq<Slot>, more: seq<Slot>, len: nat, room: Room)
    requires d.Convert? ==> args != []
    ensures DirectiveText(d, args + more) == DirectiveText(d, args)
    ensures DirectiveStores(d, args + more, len, room) == DirectiveStores(d, args, len, room)
    ensures Rest(d, args + more) == Rest(d, args) + more
  {
    if d.Convert? {
      assert (args + more)[0] == args[0] && (args + more)[1..] == args[1..] + more;
    }
  }

  /** Surplus arguments change neither the output nor the stored counts. */
  lemma {:induction false} SurplusIgnored(ds: seq<Directive>, args: seq<Slot>, more: seq<Slot>, len: nat, room: Room)
    requires Conversions(ds) <= |args|
    ensures Render(ds, args + more) == Render(ds, args)
    ensures Stores(ds, args + more, len, room) == Stores(ds, args, len, room)
  {
    hide Field;
    if ds != [] {
      var d := ds[0];
      DirectiveIgnoresSurplus(d, args, more, len, room);
      SurplusIgnored(ds[1..], Rest(d, args), more, len + |DirectiveText(d, args)|, room);
    }
  }

  /** Every percent sign doubled. */
  function Escape(s: string): string {
    if s == [] then [] else (if s[0] == '%' then "%%" else [s[0]]) + Escape(s[1..])
  }

  /** An escaped text is output unchanged and consumes no argument, whatever arguments are given. */
  lemma {:induction false} EscapeRoundTrip(s: string, args: seq<Slot>)
    requires NUL !in s
    ensures Render(Parse(Escape(s)), args) == s
    ensures Conversions(Parse(Escape(s))) == 0
  {
    if s != [] {
      assert s[0] in s && NUL !in s[1..];
      EscapeRoundTrip(s[1..], args);
      var t := Escape(s);
      var ds := Parse(Escape(s[1..]));
      var d := if s[0] == '%' then Percent("") else Text([s[0]]);
      if s[0] == '%' {
        assert t[2..] == Escape(s[1..]) && t[1..1] == "" && t[1] == '%';
        ParseSpecification(t, 1);
      } else {
        assert t[1..] == Escape(s[1..]);
        ParseText(t);
      }
      assert Parse(t) == [d] + ds;
      RenderCons(d, ds, args);
      assert Parse(t)[1..] == ds;
      assert s == [s[0]] + s[1..];
    }
  }
}
