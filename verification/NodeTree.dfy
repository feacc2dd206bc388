/** Consequences of the tree invariant: every live node has exactly one path, paths are
    short, and walking a path is the inverse of reading it off the parent links. */
module NodeTree {
  import opened Bytes
  import opened Paths
  import opened Table

  ghost function Depths(t: Nodes): (d: seq<nat>)
    requires Tree(t)
    ensures TreeWith(t, d)
  {
    var d :| TreeWith(t, d); d
  }

  /** The parent of a live non-root node: a live directory one step nearer the root. */
  lemma ParentFacts(t: Nodes, i: nat)
    requires Tree(t) && Live(t, i) && i != 0
    ensures LiveDir(t, t[i].parent) && ValidName(t[i].Title())
    ensures Depths(t)[i] == Depths(t)[t[i].parent] + 1
  {
    assert LinkOk(t, i) && RankOk(t, Depths(t), i);
  }

  /** The component list of a live node, root first. */
  ghost function PathOf(t: Nodes, i: nat): (p: Path)
    requires Tree(t) && Live(t, i)
    ensures |p| == Depths(t)[i]
    ensures forall k :: 0 <= k < |p| ==> ValidName(p[k])
    decreases Depths(t)[i]
  {
    if i == 0 then []
    else
      ParentFacts(t, i);
      PathOf(t, t[i].parent) + [t[i].Title()]
  }

  lemma PathOfChild(t: Nodes, i: nat)
    requires Tree(t) && Live(t, i) && i != 0
    ensures LiveDir(t, t[i].parent)
    ensures PathOf(t, i) == PathOf(t, t[i].parent) + [t[i].Title()]
    ensures PathOf(t, i) != []
    ensures PathOf(t, i)[..|PathOf(t, i)| - 1] == PathOf(t, t[i].parent)
    ensures PathOf(t, i)[|PathOf(t, i)| - 1] == t[i].Title()
  {
    ParentFacts(t, i);
  }

  /** Distinct live nodes have distinct paths. */
  lemma {:induction false} PathOfInjective(t: Nodes, i: nat, j: nat)
    requires Tree(t) && Live(t, i) && Live(t, j)
    requires PathOf(t, i) == PathOf(t, j)
    ensures i == j
    decreases Depths(t)[i]
  {
    if i != 0 && j != 0 {
      ParentFacts(t, i);
      PathOfChild(t, i);
      PathOfChild(t, j);
      PathOfInjective(t, t[i].parent, t[j].parent);
      assert SiblingsOk(t, i, j);
    } else if i != 0 {
      PathOfChild(t, i);
    } else if j != 0 {
      PathOfChild(t, j);
    }
  }

  /** Looking a name up succeeds exactly when a live node has the extended path. */
  lemma FindChildIsPath(t: Nodes, i: nat, c: Name)
    requires Tree(t) && Live(t, i) && Component(c)
    ensures var r := FindChild(t, i, c);
      r >= 0 ==> Live(t, r) && r != 0 && PathOf(t, r) == PathOf(t, i) + [c]
    ensures forall j :: Live(t, j) && PathOf(t, j) == PathOf(t, i) + [c] ==> FindChild(t, i, c) == j
  {
    var r := FindChild(t, i, c);
    if r >= 0 {
      RootTitle(t[0]);
      assert r != 0 by { assert c[0] != SLASH; }
      PathOfChild(t, r);
    }
    forall j | Live(t, j) && PathOf(t, j) == PathOf(t, i) + [c] ensures r == j {
      PathOfChild(t, j);
      PathOfInjective(t, t[j].parent, i);
      assert IsChild(t, i, c, j);
      assert r >= 0;
      PathOfInjective(t, r, j);
    }
  }

  /** A walk from a live node ends at a live node or fails. */
  lemma {:induction false} WalkLive(t: Nodes, cur: int, cs: Path)
    requires Tree(t) && Live(t, cur)
    ensures Walk(t, cur, cs) == -1 || Live(t, Walk(t, cur, cs))
    decreases |cs|
  {
    if cs != [] {
      var next := Descend(t, cur, cs[0]);
      if cur != 0 { ParentFacts(t, cur); }
      if next >= 0 { WalkLive(t, next, cs[1..]); }
    }
  }

  lemma ResolveLive(t: Nodes, cwd: int, path: seq<byte>)
    requires Tree(t) && Live(t, cwd)
    ensures Resolve(t, cwd, path) == -1 || Live(t, Resolve(t, cwd, path))
  {
    WalkLive(t, Start(cwd, path), Components(path));
  }

  lemma {:induction false} WalkAppend(t: Nodes, cur: int, a: Path, b: Path)
    requires InRange(t) && -1 <= cur < |t|
    ensures Walk(t, cur, a + b) == Walk(t, Walk(t, cur, a), b)
    decreases |a|
  {
    if cur >= 0 && a != [] {
      assert (a + b)[1..] == a[1..] + b;
      WalkAppend(t, Descend(t, cur, a[0]), a[1..], b);
    } else {
      assert a == [] ==> a + b == b;
    }
  }

  lemma WalkOne(t: Nodes, cur: int, c: Name)
    requires InRange(t) && 0 <= cur < |t|
    ensures Walk(t, cur, [c]) == Descend(t, cur, c)
  {
  }

  /** `fs_resolve` character by character: `path[a..i]` is the token read so far. */
  function Scan(t: Nodes, cur: int, path: seq<byte>, a: nat, i: nat): (r: int)
    requires InRange(t) && 0 <= cur < |t| && a <= i <= |path|
    decreases |path| - i
  {
    if i == |path| || path[i] == SLASH then
      var next := if a == i then cur else Descend(t, cur, path[a..i]);
      if next < 0 || i == |path| then next else Scan(t, next, path, i + 1, i + 1)
    else if i - a >= MAX_NAME then -1
    else Scan(t, cur, path, a, i + 1)
  }

  /** A token `path[a..i]` followed by a slash or the end of the text is one component. */
  lemma FirstToken(path: seq<byte>, a: nat, i: nat)
    requires a <= i <= |path|
    requires forall k :: a <= k < i ==> path[k] != SLASH
    requires i < |path| ==> path[i] == SLASH
    ensures Components(path[a..]) == (if a < i then [path[a..i]] else [])
      + (if i < |path| then Components(path[i + 1..]) else [])
  {
    var token := path[a..i];
    if a < i { ComponentsOfName(token); }
    if i < |path| {
      assert path[a..] == token + [SLASH] + path[i + 1..];
      ComponentsJoin(token, path[i + 1..]);
    } else {
      assert path[a..] == token;
    }
  }

  /** The walk of the rest of the text, after the token that ends at `i`. */
  lemma TokenStep(t: Nodes, cur: nat, path: seq<byte>, a: nat, i: nat)
    requires InRange(t) && cur < |t| && a <= i <= |path|
    requires forall k :: a <= k < i ==> path[k] != SLASH
    requires i < |path| ==> path[i] == SLASH
    ensures var next := if a == i then cur else Descend(t, cur, path[a..i]);
      Walk(t, cur, Components(path[a..])) == if i < |path| then Walk(t, next, Components(path[i + 1..])) else next
  {
    FirstToken(path, a, i);
    var tail := if i < |path| then Components(path[i + 1..]) else [];
    if a == i {
      assert [] + tail == tail;
    } else {
      assert ([path[a..i]] + tail)[1..] == tail;
    }
  }

  /** A component longer than any name is found nowhere. */
  lemma LongTokenFails(t: Nodes, cur: nat, path: seq<byte>, a: nat, i: nat)
    requires Buffered(t) && cur < |t| && a + MAX_NAME < i <= |path|
    requires forall k :: a <= k < i ==> path[k] != SLASH
    ensures Walk(t, cur, Components(path[a..])) == -1
  {
  }

  /** The end of a token, given what the rest of the loop computes. */
  lemma TokenEnds(t: Nodes, cur: nat, path: seq<byte>, a: nat, i: nat)
    requires InRange(t) && cur < |t| && a <= i <= |path|
    requires forall k :: a <= k < i ==> path[k] != SLASH
    requires i < |path| ==> path[i] == SLASH
    requires var next := if a == i then cur else Descend(t, cur, path[a..i]);
      next >= 0 && i < |path| ==> Scan(t, next, path, i + 1, i + 1) == Walk(t, next, Components(path[i + 1..]))
    ensures Scan(t, cur, path, a, i) == Walk(t, cur, Components(path[a..]))
  {
    TokenStep(t, cur, path, a, i);
  }

  /** The character loop computes the fold over the components: its early exit on a token of
      more than 31 characters gives the failure the lookup of that component would. */
  lemma {:induction false} ScanIsWalk(t: Nodes, cur: nat, path: seq<byte>, a: nat, i: nat)
    requires Buffered(t) && cur < |t| && a <= i <= |path|
    requires forall k :: a <= k < i ==> path[k] != SLASH
    ensures Scan(t, cur, path, a, i) == Walk(t, cur, Components(path[a..]))
    decreases |path| - i
  {
    if i == |path| || path[i] == SLASH {
      var next := if a == i then cur else Descend(t, cur, path[a..i]);
      if next >= 0 && i < |path| { ScanIsWalk(t, next, path, i + 1, i + 1); }
      TokenEnds(t, cur, path, a, i);
    } else if i - a >= MAX_NAME {
      LongTokenFails(t, cur, path, a, i + 1);
    } else {
      ScanIsWalk(t, cur, path, a, i + 1);
    }
  }

  lemma ScanIsResolve(t: Nodes, cwd: nat, path: seq<byte>)
    requires Buffered(t) && cwd < |t|
    ensures Scan(t, Start(cwd, path), path, 0, 0) == Resolve(t, cwd, path)
  {
    ScanIsWalk(t, Start(cwd, path), path, 0, 0);
    assert path[0..] == path;
  }

  /** Resolution composes: `p/q` from `cwd` is `q` from wherever `p` leads, and fails when
      `p` does. An empty `p` would make `p/q` absolute, hence the first requirement. */
  lemma ResolveComposes(t: Nodes, cwd: nat, p: seq<byte>, q: seq<byte>)
    requires InRange(t) && cwd < |t| && p != []
    ensures Resolve(t, cwd, p + [SLASH] + q)
         == if Resolve(t, cwd, p) < 0 then -1
            else Walk(t, Resolve(t, cwd, p), Components(q))
    ensures Resolve(t, cwd, p) >= 0 && !Absolute(q)
        ==> Resolve(t, cwd, p + [SLASH] + q) == Resolve(t, Resolve(t, cwd, p), q)
  {
    ComponentsJoin(p, q);
    WalkAppend(t, Start(cwd, p), Components(p), Components(q));
  }

  /** The two path parsers agree: resolving the whole path is one more step from the parent
      that `resolve_parent_and_leaf` found, so for a leaf other than "." and ".." it is
      `find_child(parent, leaf)`. */
  lemma LocateAgreesWithResolve(t: Nodes, cwd: nat, path: cstring)
    requires InRange(t) && cwd < |t|
    requires Locate(t, cwd, path).Target?
    ensures var g := Locate(t, cwd, path);
      Resolve(t, cwd, path) == Descend(t, g.parent, g.leaf)
    ensures var g := Locate(t, cwd, path);
      !IsDots(g.leaf) ==> Resolve(t, cwd, path) == FindChild(t, g.parent, g.leaf)
  {
    var g := Locate(t, cwd, path);
    var slash := LastSlash(path);
    ComponentsOfName(g.leaf);
    WalkOne(t, g.parent, g.leaf);
    if slash >= 0 {
      var head := path[..slash];
      assert path == head + [SLASH] + g.leaf;
      ComponentsJoin(head, g.leaf);
      WalkAppend(t, Start(cwd, path), Components(head), [g.leaf]);
      if slash > 0 {
        assert Start(cwd, path) == Start(cwd, head);
      } else {
        assert Components(head) == [];
      }
    }
  }

  /** The parent found by `resolve_parent_and_leaf` is a live directory. */
  lemma LocateLiveDir(t: Nodes, cwd: nat, path: cstring)
    requires Tree(t) && LiveDir(t, cwd)
    ensures var g := Locate(t, cwd, path); g.Target? ==> LiveDir(t, g.parent)
  {
    var slash := LastSlash(path);
    if slash > 0 { ResolveLive(t, cwd, path[..slash]); }
  }

  // ---- pigeonhole bound on depth ----------------------------------------------------------

  /** The live nodes on the way from `i` up to the root. */
  ghost function Ancestry(t: Nodes, i: nat): (s: set<nat>)
    requires Tree(t) && Live(t, i)
    ensures forall x :: x in s ==> x < |t| && Depths(t)[x] <= Depths(t)[i]
    ensures |s| == Depths(t)[i] + 1
    decreases Depths(t)[i]
  {
    if i == 0 then {0}
    else
      ParentFacts(t, i);
      Ancestry(t, t[i].parent) + {i}
  }

  lemma {:induction false} SubsetBelow(s: set<nat>, n: nat)
    requires forall x :: x in s ==> x < n
    ensures |s| <= n
    ensures |s| == n ==> forall x: nat :: x < n ==> x in s
  {
    if n == 0 {
      assert s == {};
    } else {
      var r := s - {n - 1};
      SubsetBelow(r, n - 1);
      assert n - 1 in s ==> s == r + {n - 1};
      assert n - 1 !in s ==> s == r;
    }
  }

  /** Parent chains have at most N - 1 links, so the `depth < FS_MAX_NODES` cap of
      `fs_make_path` never cuts one. */
  lemma DepthBound(t: Nodes, i: nat)
    requires Tree(t) && Live(t, i)
    ensures |PathOf(t, i)| <= |t| - 1
  {
    SubsetBelow(Ancestry(t, i), |t|);
  }

  /** The node reached by following `parent` k times. */
  function Ancestor(t: Nodes, i: int, k: nat): int
    requires InRange(t) && 0 <= i < |t|
    decreases k
  {
    if k == 0 then i else Ancestor(t, t[i].parent, k - 1)
  }

  /** Following parent links from any live node reaches the root after exactly |PathOf| steps,
      never earlier, and the nodes passed are pairwise different: there is no cycle. */
  lemma {:induction false} ChainReachesRoot(t: Nodes, i: nat, k: nat)
    requires Tree(t) && Live(t, i) && k <= |PathOf(t, i)|
    ensures 0 <= Ancestor(t, i, k) < |t| && Live(t, Ancestor(t, i, k))
    ensures Depths(t)[Ancestor(t, i, k)] == |PathOf(t, i)| - k
    ensures Ancestor(t, i, k) == 0 <==> k == |PathOf(t, i)|
    ensures forall m :: 0 <= m < k ==> Ancestor(t, i, m) != Ancestor(t, i, k)
    decreases k
  {
    if i != 0 { ParentFacts(t, i); }
    if k > 0 {
      ParentFacts(t, i);
      PathOfChild(t, i);
      ChainReachesRoot(t, t[i].parent, k - 1);
      forall m | 0 <= m < k ensures Ancestor(t, i, m) != Ancestor(t, i, k) {
        if m > 0 {
          ChainReachesRoot(t, t[i].parent, m - 1);
        }
      }
    }
    var a := Ancestor(t, i, k);
    if a != 0 { ParentFacts(t, a); }
  }

  ghost predicate ReachesRoot(t: Nodes, i: nat, limit: nat)
    requires InRange(t) && i < |t|
  {
    exists k: nat :: k <= limit && Ancestor(t, i, k) == 0
  }

  lemma ChainEnds(t: Nodes, i: nat)
    requires Tree(t) && Live(t, i)
    ensures ReachesRoot(t, i, |t| - 1)
  {
    DepthBound(t, i);
    ChainReachesRoot(t, i, |PathOf(t, i)|);
  }

  // ---- walking a path ----------------------------------------------------------------------

  ghost predicate NoDots(p: Path) {
    forall k :: 0 <= k < |p| ==> !IsDots(p[k])
  }

  /** Walking the path of a node from the root reaches it, unless a name on it is "." or "..". */
  lemma {:induction false} WalkPathOf(t: Nodes, i: nat)
    requires Tree(t) && Live(t, i) && NoDots(PathOf(t, i))
    ensures Walk(t, 0, PathOf(t, i)) == i
    decreases Depths(t)[i]
  {
    if i != 0 {
      ParentFacts(t, i);
      PathOfChild(t, i);
      var parent, c := t[i].parent, t[i].Title();
      WalkPathOf(t, parent);
      WalkAppend(t, 0, PathOf(t, parent), [c]);
      WalkOne(t, parent, c);
      assert !IsDots(c) by { assert !IsDots(PathOf(t, i)[|PathOf(t, i)| - 1]); }
      assert NoDots(PathOf(t, parent));
      FindChildIsPath(t, parent, c);
    }
  }

  /** A walk goes down at most one level per component, and none for "." or "..". */
  lemma {:induction false} WalkDepth(t: Nodes, cur: nat, cs: Path)
    requires Tree(t) && Live(t, cur)
    requires forall k :: 0 <= k < |cs| ==> Component(cs[k])
    requires Walk(t, cur, cs) >= 0
    ensures Live(t, Walk(t, cur, cs))
    ensures Depths(t)[Walk(t, cur, cs)] <= Depths(t)[cur] + |cs|
    ensures !NoDots(cs) ==> Depths(t)[Walk(t, cur, cs)] < Depths(t)[cur] + |cs|
    decreases |cs|
  {
    WalkLive(t, cur, cs);
    if cs != [] {
      var next := Descend(t, cur, cs[0]);
      if cur != 0 { ParentFacts(t, cur); }
      if !IsDots(cs[0]) {
        FindChildIsPath(t, cur, cs[0]);
      }
      assert Live(t, next);
      assert !NoDots(cs) && !IsDots(cs[0]) ==> !NoDots(cs[1..]) by {
        if !NoDots(cs) && !IsDots(cs[0]) {
          var k :| 0 <= k < |cs| && IsDots(cs[k]);
          assert cs[1..][k - 1] == cs[k];
        }
      }
      WalkDepth(t, next, cs[1..]);
    }
  }

  /** Printing then resolving is the identity exactly when no name on the path is "." or "..":
      the text `fs_make_path` produces for node `i` resolves to `i` from any directory. */
  lemma PrintThenResolve(t: Nodes, i: nat, cwd: nat)
    requires Tree(t) && Live(t, i) && cwd < |t|
    ensures Resolve(t, cwd, PathText(PathOf(t, i))) == i <==> NoDots(PathOf(t, i))
  {
    var p := PathOf(t, i);
    ComponentsOfRender(p);
    if i == 0 {
      assert Components([SLASH]) == Components([]);
      assert PathText(p) == [SLASH];
    } else {
      PathOfChild(t, i);
      assert Start(cwd, PathText(p)) == 0;
      if NoDots(p) {
        WalkPathOf(t, i);
      } else if Walk(t, 0, p) >= 0 {
        WalkDepth(t, 0, p);
      }
    }
  }

  /** Distinct live nodes print differently, dots or not. */
  lemma PrintInjective(t: Nodes, i: nat, j: nat)
    requires Tree(t) && Live(t, i) && Live(t, j)
    requires PathText(PathOf(t, i)) == PathText(PathOf(t, j))
    ensures i == j
  {
    var p, q := PathOf(t, i), PathOf(t, j);
    ComponentsOfRender(p);
    ComponentsOfRender(q);
    assert Components([SLASH]) == Components([]);
    PathOfInjective(t, i, j);
  }
}
