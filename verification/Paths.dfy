/** Slash-separated paths as lists of components. */
module Paths {
  import opened Bytes

  type Name = seq<byte>
  type Path = seq<Name>

  const DOT: Name := [46]
  const DOTDOT: Name := [46, 46]

  const MAX_NAME := 31

  predicate IsDots(c: Name) {
    c == DOT || c == DOTDOT
  }

  /** What `is_valid_name` accepts; note that it accepts "." and "..". */
  predicate ValidName(s: Name) {
    0 < |s| <= MAX_NAME && forall k :: 0 <= k < |s| ==> s[k] != SLASH
  }

  predicate Component(c: Name) {
    c != [] && forall k :: 0 <= k < |c| ==> c[k] != SLASH
  }

  /** The non-empty pieces of `s` between slashes. */
  function Components(s: seq<byte>): (cs: Path)
    ensures forall k :: 0 <= k < |cs| ==> Component(cs[k])
    decreases |s|
  {
    if s == [] then []
    else if s[0] == SLASH then Components(s[1..])
    else
      var k := IndexOf(s, SLASH);
      [s[..k]] + Components(s[k..])
  }

  lemma {:induction false} ComponentsOfName(c: Name)
    requires Component(c)
    ensures Components(c) == [c]
  {
    IndexOfUnique(c, SLASH, |c|);
    assert c[..|c|] == c && c[|c|..] == [];
  }

  lemma CutJoin(a: seq<byte>, b: seq<byte>, k: nat)
    requires k <= |a|
    ensures (a + [SLASH] + b)[..k] == a[..k] && (a + [SLASH] + b)[k..] == a[k..] + [SLASH] + b
  {
  }

  lemma IndexOfJoin(a: seq<byte>, b: seq<byte>)
    ensures IndexOf(a + [SLASH] + b, SLASH) == IndexOf(a, SLASH)
  {
    var s, k := a + [SLASH] + b, IndexOf(a, SLASH);
    assert forall j :: 0 <= j < |a| ==> s[j] == a[j];
    assert s[|a|] == SLASH;
    IndexOfUnique(s, SLASH, k);
  }

  /** A slash separates: nothing is merged across it and nothing is lost. */
  lemma {:induction false} ComponentsJoin(a: seq<byte>, b: seq<byte>)
    ensures Components(a + [SLASH] + b) == Components(a) + Components(b)
    decreases |a|
  {
    var s := a + [SLASH] + b;
    if a == [] {
      assert s[1..] == b;
    } else if a[0] == SLASH {
      assert s[1..] == a[1..] + [SLASH] + b;
      ComponentsJoin(a[1..], b);
    } else {
      IndexOfJoin(a, b);
      CutJoin(a, b, IndexOf(a, SLASH));
      ComponentsJoin(a[IndexOf(a, SLASH)..], b);
    }
  }

  /** The text of a non-root path: a slash before every component. */
  function Render(p: Path): (s: seq<byte>)
    ensures |s| >= |p|
  {
    if p == [] then [] else Render(p[..|p| - 1]) + [SLASH] + p[|p| - 1]
  }

  /** The text of any absolute path. */
  function PathText(p: Path): seq<byte> {
    if p == [] then [SLASH] else Render(p)
  }

  lemma {:induction false} RenderCons(c: Name, q: Path)
    ensures Render([c] + q) == [SLASH] + c + Render(q)
    decreases |q|
  {
    if q == [] {
      assert [c] + q == [c] && [c][..0] == [];
    } else {
      var last := q[|q| - 1];
      assert ([c] + q)[..|q|] == [c] + q[..|q| - 1];
      RenderCons(c, q[..|q| - 1]);
    }
  }

  /** No text with these components that is empty or starts with a slash is shorter, and no other
      is as short. */
  lemma {:induction false} ShortestRender(s: seq<byte>)
    requires s == [] || s[0] == SLASH
    ensures |Render(Components(s))| <= |s|
    ensures |Render(Components(s))| == |s| ==> Render(Components(s)) == s
    decreases |s|
  {
    if s != [] {
      var r := s[1..];
      if r != [] && r[0] == SLASH {
        ShortestRender(r);
      } else if r != [] {
        var k := IndexOf(r, SLASH);
        ShortestRender(r[k..]);
        RenderCons(r[..k], Components(r[k..]));
        assert s == [SLASH] + r[..k] + r[k..];
      }
    }
  }

  /** The printed text is the one shortest absolute text of its components. */
  lemma PathTextIsShortest(s: seq<byte>)
    requires s != [] && s[0] == 47
    ensures |PathText(Components(s))| <= |s|
    ensures |PathText(Components(s))| == |s| <==> PathText(Components(s)) == s
  {
    ShortestRender(s);
    if Components(s) == [] && |s| == 1 { assert s == [SLASH]; }
  }

  lemma {:induction false} ComponentsOfRender(p: Path)
    requires forall k :: 0 <= k < |p| ==> Component(p[k])
    ensures Components(Render(p)) == p
    ensures p != [] ==> Render(p) != [] && Render(p)[0] == SLASH
  {
    if p != [] {
      var q, c := p[..|p| - 1], p[|p| - 1];
      ComponentsOfRender(q);
      ComponentsJoin(Render(q), c);
      ComponentsOfName(c);
      assert Components(c) == [c];
      assert q + [c] == p;
    }
  }

  /** Index of the last slash, or -1: the scan of `resolve_parent_and_leaf`. */
  function LastSlash(s: seq<byte>): (k: int)
    ensures -1 <= k < |s|
    ensures k >= 0 ==> s[k] == SLASH
    ensures forall j :: k < j < |s| ==> s[j] != SLASH
  {
    if s == [] then -1
    else if s[|s| - 1] == SLASH then |s| - 1
    else LastSlash(s[..|s| - 1])
  }

  predicate Absolute(s: seq<byte>) {
    s != [] && s[0] == SLASH
  }
}
