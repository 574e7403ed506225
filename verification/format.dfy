/**
 The format engine: format_builder is one step of a left fold over the
 arguments with state (buf, fmt), and static_format runs the fold from
 ("", template), appends what is left of the template, and stores the result
 in a static_string of capacity max_len. The engine is related to the
 reference decomposition of templates: each argument fills one hole, surplus
 arguments are dropped and surplus holes stay literal.
 */
module Format {
  import opened Decimal
  import opened StaticStrings
  import opened Templates

  /** The capacity of static_format's result. */
  const MaxLen: nat := 1000

  /** A format argument, tagged by how format_builder renders it. */
  datatype Arg = Int(value: int) | Float(x: real) | Text(s: string)

  /** The text appended for one argument: an integer through the integer
      converter, whose view is the numeral; a floating-point value through a
      rendering left open here; anything else verbatim. */
  function Render(a: Arg, floatText: real -> string): string {
    match a
    case Int(n) => Numeral(n)
    case Float(x) => floatText(x)
    case Text(s) => s
  }

  function Renders(args: seq<Arg>, floatText: real -> string): (rs: seq<string>)
    ensures |rs| == |args|
    ensures forall i :: 0 <= i < |args| ==> rs[i] == Render(args[i], floatText)
  {
    seq(|args|, i requires 0 <= i < |args| => Render(args[i], floatText))
  }

  /** The state of the fold: the output so far and the unconsumed template. */
  datatype Builder = Builder(buf: string, fmt: string)

  /** format_builder: find the first '{' and the first '}' after it; if either
      is missing leave the state alone (the argument is dropped); otherwise
      append the literal before the '{' and the argument's rendering, and
      continue after the '}', discarding what stood between the braces. */
  function Step(st: Builder, a: Arg, floatText: real -> string): (r: Builder)
    ensures !HasPlaceholder(st.fmt) ==> r == st
    ensures forall lit, mid, rest :: SplitsAt(st.fmt, lit, mid, rest) ==>
      r == Builder(st.buf + lit + Render(a, floatText), rest)
  {
    match FirstSplit(st.fmt)
    case None => NoSplit(st.fmt); st
    case Some(sp) =>
      forall lit, mid, rest | SplitsAt(st.fmt, lit, mid, rest)
        ensures lit == sp.lit && rest == sp.rest
      {
        SplitIsFirst(st.fmt, lit, mid, rest);
      }
      Builder(st.buf + sp.lit + Render(a, floatText), sp.rest)
  }

  /** The fold expression (format_builder(buf, fmt, args), ...): one step per
      argument, left to right. */
  function Fold(st: Builder, args: seq<Arg>, floatText: real -> string): Builder
    decreases |args|
  {
    if args == [] then st else Fold(Step(st, args[0], floatText), args[1..], floatText)
  }

  /** The text static_format builds: the fold's output, then what remains of
      the template. */
  function FormatText(fmt: string, args: seq<Arg>, floatText: real -> string): string {
    var st := Fold(Builder("", fmt), args, floatText);
    st.buf + st.fmt
  }

  /** static_format: the text stored in a static_string<max_len> with length
      equal to the text's length. The copy into the array must fit. */
  function StaticFormat(fmt: string, args: seq<Arg>, floatText: real -> string): (r: StaticString)
    requires |FormatText(fmt, args, floatText)| <= MaxLen
    ensures r.Capacity() == MaxLen
    ensures r.Size() == |FormatText(fmt, args, floatText)|
    ensures r.Viewable() && ToView(r) == FormatText(fmt, args, floatText)
  {
    var out := FormatText(fmt, args, floatText);
    ViewRoundTrip(MaxLen, out);
    FromView(MaxLen, out, |out|)
  }

  function Min(a: nat, b: nat): nat {
    if a <= b then a else b
  }

  /** Once a step drops its argument every later step does too: the template
      is unchanged, so the same searches fail again. */
  lemma {:induction false} StuckFold(st: Builder, args: seq<Arg>, floatText: real -> string)
    requires !HasPlaceholder(st.fmt)
    ensures Fold(st, args, floatText) == st
    decreases |args|
  {
    if args != [] {
      StuckFold(st, args[1..], floatText);
    }
  }

  lemma {:induction false} FoldAppend(st: Builder, a: seq<Arg>, b: seq<Arg>, floatText: real -> string)
    ensures Fold(st, a + b, floatText) == Fold(Fold(st, a, floatText), b, floatText)
    decreases |a|
  {
    if a != [] {
      assert (a + b)[0] == a[0] && (a + b)[1..] == a[1..] + b;
      FoldAppend(Step(st, a[0], floatText), a[1..], b, floatText);
    } else {
      assert a + b == b;
    }
  }

  lemma TakeDrop(args: seq<Arg>, k: nat)
    requires k <= |args|
    ensures args[..k] + args[k..] == args
  {
  }

  /** If the first k arguments leave no placeholder in the template, the
      remaining arguments change nothing. */
  lemma SurplusArgumentsDropped(fmt: string, args: seq<Arg>, k: nat, floatText: real -> string)
    requires k <= |args|
    requires !HasPlaceholder(Fold(Builder("", fmt), args[..k], floatText).fmt)
    ensures FormatText(fmt, args, floatText) == FormatText(fmt, args[..k], floatText)
  {
    TakeDrop(args, k);
    FoldAppend(Builder("", fmt), args[..k], args[k..], floatText);
    StuckFold(Fold(Builder("", fmt), args[..k], floatText), args[k..], floatText);
  }

  /** A step on a template with a hole fills that hole. */
  lemma StepFillsHole(buf: string, t: Template, a: Arg, floatText: real -> string)
    requires WellFormed(t) && |t.holes| > 0
    ensures Step(Builder(buf, Assemble(t)), a, floatText)
      == Builder(buf + t.holes[0].lit + Render(a, floatText), Assemble(Drop(t, 1)))
  {
    FirstHoleSplits(t);
  }

  /** The fold's first step fills the first hole. */
  lemma FoldFirstHole(buf: string, t: Template, args: seq<Arg>, floatText: real -> string)
    requires WellFormed(t) && |t.holes| > 0 && |args| > 0
    ensures Fold(Builder(buf, Assemble(t)), args, floatText)
      == Fold(Builder(buf + t.holes[0].lit + Render(args[0], floatText), Assemble(Drop(t, 1))), args[1..], floatText)
  {
    StepFillsHole(buf, t, args[0], floatText);
  }

  lemma InterleaveFirst(buf: string, t: Template, args: seq<Arg>, j: nat, floatText: real -> string)
    requires 1 <= j <= |t.holes| && j <= |args|
    ensures buf + t.holes[0].lit + Render(args[0], floatText)
         + Interleave(Drop(t, 1).holes[..j - 1], Renders(args[1..][..j - 1], floatText))
      == buf + Interleave(t.holes[..j], Renders(args[..j], floatText))
    ensures Drop(Drop(t, 1), j - 1) == Drop(t, j)
  {
    var rs := Renders(args[..j], floatText);
    assert Interleave(t.holes[..j], rs) == t.holes[0].lit + rs[0] + Interleave(t.holes[..j][1..], rs[1..]);
    assert Drop(t, 1).holes[..j - 1] == t.holes[..j][1..];
    assert args[1..][..j - 1] == args[..j][1..];
    assert Renders(args[1..][..j - 1], floatText) == rs[1..];
    assert t.holes[1..][j - 1..] == t.holes[j..];
  }

  /** With no arguments, or no hole left, the fold leaves the state alone. */
  lemma FoldOnFilledTemplate(buf: string, t: Template, args: seq<Arg>, floatText: real -> string)
    requires WellFormed(t) && (args == [] || t.holes == [])
    ensures Fold(Builder(buf, Assemble(t)), args, floatText) == Builder(buf, Assemble(t))
    ensures t.holes[..0] == [] && args[..0] == [] && Drop(t, 0) == t
  {
    assert t.holes[..0] == [] && args[..0] == [];
    if args != [] {
      StuckFold(Builder(buf, Assemble(t)), args, floatText);
    }
  }

  /** The fold against the reference decomposition: with j = min(#args,
      #holes), the first j holes are filled in order with the renderings of
      the first j arguments and the rest of the template is untouched. */
  lemma {:induction false} FoldFollowsTemplate(buf: string, t: Template, args: seq<Arg>, floatText: real -> string)
    requires WellFormed(t)
    ensures var j := Min(|args|, |t.holes|);
      Fold(Builder(buf, Assemble(t)), args, floatText)
        == Builder(buf + Interleave(t.holes[..j], Renders(args[..j], floatText)), Assemble(Drop(t, j)))
    decreases |args|
  {
    var j := Min(|args|, |t.holes|);
    if args == [] || t.holes == [] {
      FoldOnFilledTemplate(buf, t, args, floatText);
    } else {
      var t1, rest := Drop(t, 1), args[1..];
      var buf1 := buf + t.holes[0].lit + Render(args[0], floatText);
      FoldFirstHole(buf, t, args, floatText);
      assert Min(|rest|, |t1.holes|) == j - 1;
      FoldFollowsTemplate(buf1, t1, rest, floatText);
      InterleaveFirst(buf, t, args, j, floatText);
    }
  }

  /** static_format against the reference decomposition of its template. */
  lemma FormatFollowsTemplate(t: Template, args: seq<Arg>, floatText: real -> string)
    requires WellFormed(t)
    ensures var j := Min(|args|, |t.holes|);
      FormatText(Assemble(t), args, floatText)
        == Interleave(t.holes[..j], Renders(args[..j], floatText)) + Assemble(Drop(t, j))
  {
    var j := Min(|args|, |t.holes|);
    var text := Interleave(t.holes[..j], Renders(args[..j], floatText));
    FoldFollowsTemplate("", t, args, floatText);
    assert Fold(Builder("", Assemble(t)), args, floatText) == Builder(text, Assemble(Drop(t, j)));
  }

  /** As many arguments as holes: every hole is replaced, left to right, and
      the tail follows. */
  lemma FormatExactArity(t: Template, args: seq<Arg>, floatText: real -> string)
    requires WellFormed(t) && |args| == |t.holes|
    ensures FormatText(Assemble(t), args, floatText) == Interleave(t.holes, Renders(args, floatText)) + t.tail
  {
    FormatFollowsTemplate(t, args, floatText);
    assert t.holes[..|args|] == t.holes && args[..|args|] == args;
    assert Drop(t, |args|).holes == [];
  }

  /** More arguments than holes: the output is the one for exactly as many
      arguments as holes, so the surplus appears nowhere. */
  lemma FormatSurplusArguments(t: Template, args: seq<Arg>, floatText: real -> string)
    requires WellFormed(t) && |args| >= |t.holes|
    ensures FormatText(Assemble(t), args, floatText)
      == FormatText(Assemble(t), args[..|t.holes|], floatText)
    ensures FormatText(Assemble(t), args, floatText)
      == Interleave(t.holes, Renders(args[..|t.holes|], floatText)) + t.tail
  {
    var k := |t.holes|;
    FormatFollowsTemplate(t, args, floatText);
    FormatExactArity(t, args[..k], floatText);
    assert t.holes[..k] == t.holes && args[..k][..k] == args[..k];
    assert Drop(t, k).holes == [];
  }

  /** Fewer arguments than holes: the holes left over appear literally, braces
      and inner text included. */
  lemma FormatSurplusHoles(t: Template, args: seq<Arg>, floatText: real -> string)
    requires WellFormed(t) && |args| < |t.holes|
    ensures FormatText(Assemble(t), args, floatText)
      == Interleave(t.holes[..|args|], Renders(args, floatText)) + Assemble(Drop(t, |args|))
  {
    FormatFollowsTemplate(t, args, floatText);
    assert args[..|args|] == args;
  }

  /** A template without a placeholder comes back unchanged, whatever the
      arguments; with no arguments every template does. */
  lemma FormatLiteral(fmt: string, args: seq<Arg>, floatText: real -> string)
    ensures FormatText(fmt, [], floatText) == fmt
    ensures !HasPlaceholder(fmt) ==> FormatText(fmt, args, floatText) == fmt
  {
    if !HasPlaceholder(fmt) {
      StuckFold(Builder("", fmt), args, floatText);
    }
  }

  // The concrete scenario is stated with the template and the output split
  // where the placeholder stands, which keeps the literal strings the solver
  // has to compare short.

  lemma HelloStep(floatText: real -> string)
    ensures Step(Builder("", "{}" + ", format!"), Text("Hello"), floatText) == Builder("Hello", ", format!")
  {
    assert SplitsAt("{}" + ", format!", "", "", ", format!");
  }

  /** The template "{}, format!" with the argument "Hello" gives
      "Hello, format!". */
  lemma HelloExample(floatText: real -> string)
    ensures FormatText("{}" + ", format!", [Text("Hello")], floatText) == "Hello" + ", format!"
  {
    HelloStep(floatText);
    assert [Text("Hello")][1..] == [];
  }

  lemma NoPlaceholderExample(floatText: real -> string)
    ensures FormatText("no placeholders", [Int(1), Int(2), Int(3)], floatText) == "no placeholders"
  {
    assert !HasPlaceholder("no placeholders") by {
      assert '{' !in "no placeholders";
    }
    FormatLiteral("no placeholders", [Int(1), Int(2), Int(3)], floatText);
  }
}
