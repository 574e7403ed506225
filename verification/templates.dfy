/**
 A reference description of a format string, independent of the format
 engine's scan: a format string is a sequence of holes, each a literal with no
 '{' followed by "{", any text without '}', and "}", and then a tail in which
 no '{' is followed later by a '}'. Every string has exactly one such
 decomposition (Parse and Assemble are inverse).
 */
module Templates {

  datatype Option<T> = None | Some(value: T)

  /** string_view::find(c, from). */
  function Find(s: string, c: char, from: nat): (r: Option<nat>)
    ensures r.Some? ==> from <= r.value < |s| && s[r.value] == c
    decreases |s| - from
  {
    if from >= |s| then None
    else if s[from] == c then Some(from)
    else Find(s, c, from + 1)
  }

  /** Find returns the first index at or after `from` holding c: none before
      it holds c, and none at all when Find finds nothing (in particular when `from` is past the end). */
  lemma {:induction false} FindSpec(s: string, c: char, from: nat)
    ensures Find(s, c, from).Some? ==> forall k :: from <= k < Find(s, c, from).value ==> s[k] != c
    ensures Find(s, c, from).None? ==> forall k :: from <= k < |s| ==> s[k] != c
    decreases |s| - from
  {
    if from < |s| && s[from] != c {
      FindSpec(s, c, from + 1);
    }
  }

  /** Some '{' is followed, somewhere later, by a '}'. */
  predicate HasPlaceholder(s: string) {
    exists i, j :: 0 <= i < j < |s| && s[i] == '{' && s[j] == '}'
  }

  /** s is lit "{" mid "}" rest where the braces are the first '{' of s and the
      first '}' after it. Any text may stand between the braces. */
  predicate SplitsAt(s: string, lit: string, mid: string, rest: string) {
    s == lit + "{" + mid + "}" + rest && '{' !in lit && '}' !in mid
  }

  /** A split is exactly where the two searches of the format engine stop:
      the first '{' is the one after the literal, ... */
  lemma OpenFound(s: string, lit: string, mid: string, rest: string)
    requires SplitsAt(s, lit, mid, rest)
    ensures Find(s, '{', 0) == Some(|lit|)
  {
    FindSpec(s, '{', 0);
    assert forall k :: 0 <= k < |lit| ==> s[k] == lit[k];
    assert s[|lit|] == '{';
  }

  /** ... and the first '}' after it is the one after the inner text. */
  lemma CloseFound(s: string, lit: string, mid: string, rest: string)
    requires SplitsAt(s, lit, mid, rest)
    ensures Find(s, '}', |lit| + 1) == Some(|lit| + |mid| + 1)
  {
    FindSpec(s, '}', |lit| + 1);
    assert forall k :: |lit| + 1 <= k < |lit| + 1 + |mid| ==> s[k] == mid[k - |lit| - 1];
    assert s[|lit| + 1 + |mid|] == '}';
  }

  /** Both searches succeed exactly when the string holds a placeholder. */
  lemma FindsPlaceholder(s: string)
    ensures HasPlaceholder(s) <==>
      (Find(s, '{', 0).Some? && Find(s, '}', Find(s, '{', 0).value + 1).Some?)
  {
    if HasPlaceholder(s) {
      var i, j :| 0 <= i < j < |s| && s[i] == '{' && s[j] == '}';
      FindSpec(s, '{', 0);
      var o := Find(s, '{', 0);
      FindSpec(s, '}', o.value + 1);
      assert o.Some? && o.value <= i;
      assert Find(s, '}', o.value + 1).Some?;
    }
  }

  /** A split determines its three parts. */
  lemma SplitUnique(s: string, lit: string, mid: string, rest: string,
                    lit': string, mid': string, rest': string)
    requires SplitsAt(s, lit, mid, rest) && SplitsAt(s, lit', mid', rest')
    ensures lit == lit' && mid == mid' && rest == rest'
  {
    OpenFound(s, lit, mid, rest);
    CloseFound(s, lit, mid, rest);
    OpenFound(s, lit', mid', rest');
    CloseFound(s, lit', mid', rest');
    assert lit == s[..|lit|] && lit' == s[..|lit'|];
    assert mid == s[|lit| + 1..|lit| + 1 + |mid|];
    assert mid' == s[|lit'| + 1..|lit'| + 1 + |mid'|];
    assert rest == s[|lit| + |mid| + 2..] && rest' == s[|lit'| + |mid'| + 2..];
  }

  datatype Hole = Hole(lit: string, inner: string)

  datatype Template = Template(holes: seq<Hole>, tail: string)

  predicate WellFormed(t: Template) {
    && (forall i :: 0 <= i < |t.holes| ==> '{' !in t.holes[i].lit && '}' !in t.holes[i].inner)
    && !HasPlaceholder(t.tail)
  }

  /** The format string a template describes. */
  function Assemble(t: Template): string
    decreases |t.holes|
  {
    if t.holes == [] then t.tail
    else t.holes[0].lit + "{" + t.holes[0].inner + "}" + Assemble(Template(t.holes[1..], t.tail))
  }

  /** The template with its first j holes removed. */
  function Drop(t: Template, j: nat): (r: Template)
    requires j <= |t.holes|
    ensures |r.holes| == |t.holes| - j
    ensures WellFormed(t) ==> WellFormed(r)
  {
    Template(t.holes[j..], t.tail)
  }

  /** The split at the positions the two searches return. */
  lemma FoundSplit(s: string, i: nat, j: nat)
    requires Find(s, '{', 0) == Some(i) && Find(s, '}', i + 1) == Some(j)
    ensures SplitsAt(s, s[..i], s[i + 1..j], s[j + 1..])
  {
    FindSpec(s, '{', 0);
    FindSpec(s, '}', i + 1);
    SliceAround(s, i, j);
  }

  lemma SliceAround(s: string, i: nat, j: nat)
    requires i < j < |s| && s[i] == '{' && s[j] == '}'
    ensures s == s[..i] + "{" + s[i + 1..j] + "}" + s[j + 1..]
  {
  }

  /** The template with h placed before its holes. */
  function Cons(h: Hole, t: Template): Template {
    Template([h] + t.holes, t.tail)
  }

  lemma AssembleCons(h: Hole, t: Template)
    ensures Assemble(Cons(h, t)) == h.lit + "{" + h.inner + "}" + Assemble(t)
  {
    assert ([h] + t.holes)[1..] == t.holes;
  }

  datatype Split = Split(lit: string, mid: string, rest: string)

  /** The two searches of the format engine: the first '{', then the first '}'
      after it. They succeed exactly when there is a placeholder, and then
      they split the string there. */
  function FirstSplit(s: string): (r: Option<Split>)
    ensures r.None? <==> !HasPlaceholder(s)
    ensures r.Some? ==> SplitsAt(s, r.value.lit, r.value.mid, r.value.rest)
  {
    FindsPlaceholder(s);
    match Find(s, '{', 0)
    case None => None
    case Some(i) =>
      match Find(s, '}', i + 1)
      case None => None
      case Some(j) =>
        FoundSplit(s, i, j);
        Some(Split(s[..i], s[i + 1..j], s[j + 1..]))
  }

  /** Every split of a string is the one the searches find. */
  lemma SplitIsFirst(s: string, lit: string, mid: string, rest: string)
    requires SplitsAt(s, lit, mid, rest)
    ensures FirstSplit(s) == Some(Split(lit, mid, rest))
  {
    var r := FirstSplit(s);
    OpenFound(s, lit, mid, rest);
    CloseFound(s, lit, mid, rest);
    FindsPlaceholder(s);
    SplitUnique(s, lit, mid, rest, r.value.lit, r.value.mid, r.value.rest);
  }

  /** Without a placeholder there is no split. */
  lemma NoSplit(s: string)
    requires !HasPlaceholder(s)
    ensures forall lit, mid, rest :: !SplitsAt(s, lit, mid, rest)
  {
    forall lit, mid, rest | SplitsAt(s, lit, mid, rest)
      ensures false
    {
      SplitIsFirst(s, lit, mid, rest);
    }
  }

  /** The decomposition of a format string into holes and a tail, split off
      one at a time where the searches stop. It describes the string it came
      from. */
  function Parse(s: string): (t: Template)
    ensures WellFormed(t) && Assemble(t) == s
    decreases |s|
  {
    match FirstSplit(s)
    case None => Template([], s)
    case Some(sp) =>
      var rest := Parse(sp.rest);
      AssembleCons(Hole(sp.lit, sp.mid), rest);
      Cons(Hole(sp.lit, sp.mid), rest)
  }

  /** Parse on a split string: the first hole, then the parse of the rest. */
  lemma ParseAtSplit(s: string, lit: string, mid: string, rest: string)
    requires SplitsAt(s, lit, mid, rest)
    ensures Parse(s) == Cons(Hole(lit, mid), Parse(rest))
  {
    SplitIsFirst(s, lit, mid, rest);
  }

  lemma ParseLiteral(s: string)
    requires !HasPlaceholder(s)
    ensures Parse(s) == Template([], s)
  {
  }

  /** A well-formed template is recovered from the string it describes, so
      the decomposition of a string is unique. */
  lemma {:induction false} ParseAssemble(t: Template)
    requires WellFormed(t)
    ensures Parse(Assemble(t)) == t
    decreases |t.holes|
  {
    if t.holes == [] {
      ParseLiteral(t.tail);
    } else {
      var h, t1 := t.holes[0], Drop(t, 1);
      FirstHoleSplits(t);
      ParseAtSplit(Assemble(t), h.lit, h.inner, Assemble(t1));
      ParseAssemble(t1);
      ConsDrop(t);
    }
  }

  lemma ConsDrop(t: Template)
    requires t.holes != []
    ensures Cons(t.holes[0], Drop(t, 1)) == t
  {
    assert [t.holes[0]] + t.holes[1..] == t.holes;
  }

  /** The first hole of a well-formed template is where its string splits. */
  lemma FirstHoleSplits(t: Template)
    requires WellFormed(t) && t.holes != []
    ensures SplitsAt(Assemble(t), t.holes[0].lit, t.holes[0].inner, Assemble(Drop(t, 1)))
  {
  }

  /** Literal parts and renderings alternated: lit0 r0 lit1 r1 ... */
  function Interleave(holes: seq<Hole>, rs: seq<string>): string
    requires |holes| == |rs|
  {
    if holes == [] then "" else holes[0].lit + rs[0] + Interleave(holes[1..], rs[1..])
  }
}
