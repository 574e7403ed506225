/**
 static_string<N>: a fixed array of N characters plus a separately stored
 logical length. The capacity N is a template argument in the source; here it
 is the length of the character sequence. Two quirks are kept as the source
 has them: a default-constructed instance has length N (not 0) over an all-NUL
 array, and the join operator never updates the length of its result.
 */
module StaticStrings {

  const NUL: char := '\0'

  function Zeros(k: nat): (z: string)
    ensures |z| == k
    ensures forall i :: 0 <= i < k ==> z[i] == NUL
  {
    seq(k, _ => NUL)
  }

  datatype StaticString = StaticString(str: seq<char>, length: nat) {

    /** The template argument N: the number of characters the array holds. */
    function Capacity(): nat {
      |str|
    }

    function Size(): nat {
      length
    }

    /** The length can be shown through to_string_view without reading
        outside the array. */
    predicate Viewable() {
      length <= |str|
    }
  }

  /** The default constructor: value-initialised (all NUL) array, and the
      length member keeps its default initialiser N. */
  function Default(n: nat): (s: StaticString)
    ensures s.Capacity() == n && s.Size() == s.Capacity()
    ensures forall i :: 0 <= i < n ==> s.str[i] == NUL
  {
    StaticString(Zeros(n), n)
  }

  /** The constructor from a view and an explicit size: copies the whole view
      to the front of the array and records `size` as the length, whatever the
      view's length. The copy must fit in the array. The bytes past the copy
      are left indeterminate by the source; here they are NUL and nothing is
      stated about them. */
  function FromView(n: nat, v: string, size: nat): (s: StaticString)
    requires |v| <= n
    ensures s.Capacity() == n && s.Size() == size
    ensures forall i :: 0 <= i < |v| ==> s.str[i] == v[i]
  {
    StaticString(v + Zeros(n - |v|), size)
  }

  /** The constructor from a view alone delegates with size N. */
  function FromViewFull(n: nat, v: string): (s: StaticString)
    requires |v| <= n
    ensures s.Capacity() == n && s.Size() == n
    ensures forall i :: 0 <= i < |v| ==> s.str[i] == v[i]
  {
    FromView(n, v, n)
  }

  function SetSize(s: StaticString, size: nat): (r: StaticString)
    ensures r.str == s.str && r.Size() == size
  {
    s.(length := size)
  }

  /** to_string_view: the first size() characters of the array. */
  function ToView(s: StaticString): (v: string)
    requires s.Viewable()
    ensures |v| == s.Size()
    ensures forall i :: 0 <= i < |v| ==> v[i] == s.str[i]
  {
    s.str[..s.length]
  }

  /** Building from a view with the view's own length and viewing again gives
      the view back. */
  lemma ViewRoundTrip(n: nat, v: string)
    requires |v| <= n
    ensures ToView(FromView(n, v, |v|)) == v
  {
    var w := ToView(FromView(n, v, |v|));
    assert forall i :: 0 <= i < |v| ==> w[i] == v[i];
  }

  /** The view after set_size(k) is the first k characters of the array, so a
      shorter size gives a prefix of a longer one. */
  lemma SetSizeView(s: StaticString, k: nat, k': nat)
    requires k <= k' <= s.Capacity()
    ensures ToView(SetSize(s, k)) == s.str[..k]
    ensures ToView(SetSize(s, k)) == ToView(SetSize(s, k'))[..k]
  {
    var a, b := ToView(SetSize(s, k)), ToView(SetSize(s, k'));
    assert forall i :: 0 <= i < k ==> a[i] == s.str[i] == b[i];
  }

  /** The view of a default-constructed instance is N NUL characters, not the
      empty string. */
  lemma DefaultView(n: nat)
    ensures Default(n).Viewable()
    ensures ToView(Default(n)) == Zeros(n)
  {
    var v := ToView(Default(n));
    assert forall i :: 0 <= i < n ==> v[i] == NUL;
  }

  /** operator+: the result (capacity N+M) starts from a default instance, gets
      the first size()-1 characters of lhs, then rhs.size() characters of rhs
      starting at index size()-1, so the last counted character of lhs is
      overwritten. The length is never set, so it stays N+M. The source reads
      size()-1 characters from lhs (an unsigned wrap-around when size() is 0)
      and rhs.size() from rhs, which must lie inside their arrays. */
  function Concat(lhs: StaticString, rhs: StaticString): (r: StaticString)
    requires 1 <= lhs.Size() <= lhs.Capacity() + 1
    requires rhs.Viewable()
    ensures r.Capacity() == lhs.Capacity() + rhs.Capacity()
    ensures r.Size() == r.Capacity()
    ensures forall i :: 0 <= i < lhs.Size() - 1 ==> r.str[i] == lhs.str[i]
    ensures forall i :: 0 <= i < rhs.Size() ==> r.str[lhs.Size() - 1 + i] == rhs.str[i]
    ensures forall i :: lhs.Size() - 1 + rhs.Size() <= i < r.Capacity() ==> r.str[i] == NUL
  {
    var k := lhs.length - 1;
    var body := lhs.str[..k] + rhs.str[..rhs.length];
    var n := |lhs.str| + |rhs.str|;
    StaticString(body + Zeros(n - |body|), n)
  }

  /** The view of a join of two viewable instances: lhs's view without its
      last character, rhs's view, then NUL padding up to N+M. */
  lemma ConcatView(lhs: StaticString, rhs: StaticString)
    requires 1 <= lhs.Size() && lhs.Viewable() && rhs.Viewable()
    ensures Concat(lhs, rhs).Viewable()
    ensures var pad := lhs.Capacity() + rhs.Capacity() - (lhs.Size() - 1 + rhs.Size());
            ToView(Concat(lhs, rhs)) == ToView(lhs)[..lhs.Size() - 1] + ToView(rhs) + Zeros(pad)
  {
    var r := Concat(lhs, rhs);
    var k := lhs.Size() - 1;
    assert r.str == lhs.str[..k] + rhs.str[..rhs.length] + Zeros(|r.str| - (k + rhs.length));
    assert ToView(r) == r.str;
    assert ToView(lhs)[..k] == lhs.str[..k];
    assert ToView(rhs) == rhs.str[..rhs.length];
  }

  /** Joining "ab" (capacity 2) with "c" (capacity 1) yields the text "ac"
      followed by a NUL, with length 3: the 'b' is lost. */
  lemma ConcatOverlapExample()
    ensures ToView(Concat(StaticString("ab", 2), StaticString("c", 1))) == "ac" + [NUL]
  {
    ConcatView(StaticString("ab", 2), StaticString("c", 1));
  }
}
