/** The node table refines the path map: every operation of kernel/fs.c, on every tree and
    from every live directory, is the map operation seen through the abstraction `Abs`. */
module Refinement {
  import opened Bytes
  import opened Paths
  import opened Table
  import opened NodeTree
  import opened PathMap

  function EntryOf(n: Node): Entry
    requires n.size <= |n.data|
  {
    if n.isDir then Dir(n.owner, n.mode) else File(n.owner, n.mode, n.Content())
  }

  ghost predicate AllLive(t: Nodes, s: set<nat>) {
    forall i :: i in s ==> Live(t, i)
  }

  ghost function LiveSet(t: Nodes): (s: set<nat>)
    ensures AllLive(t, s)
    ensures forall i :: Live(t, i) ==> i in s
  {
    set i: nat | i < |t| && t[i].used
  }

  ghost function PathsOf(t: Nodes, s: set<nat>): set<Path>
    requires Tree(t) && AllLive(t, s)
  {
    set i | i in s :: PathOf(t, i)
  }

  /** Every live slot is in the map, under its path and with its own data ... */
  ghost predicate EntryAt(t: Nodes, m: Files, i: nat)
    requires Tree(t)
  {
    Live(t, i) ==> PathOf(t, i) in m && m[PathOf(t, i)] == EntryOf(t[i])
  }

  /** ... and nothing else is. */
  ghost predicate FromSlot(t: Nodes, m: Files, p: Path)
    requires Tree(t)
  {
    p in m ==> exists i: nat :: Live(t, i) && PathOf(t, i) == p
  }

  ghost predicate IsAbs(t: Nodes, m: Files)
    requires Tree(t)
  {
    (forall i: nat :: EntryAt(t, m, i)) && (forall p :: FromSlot(t, m, p))
  }

  ghost function SlotOf(t: Nodes, p: Path): (i: nat)
    requires Tree(t) && p in PathsOf(t, LiveSet(t))
    ensures Live(t, i) && PathOf(t, i) == p
  {
    var i: nat :| Live(t, i) && PathOf(t, i) == p; i
  }

  lemma AbsExists(t: Nodes)
    requires Tree(t)
    ensures exists m :: IsAbs(t, m)
  {
    var m := map p | p in PathsOf(t, LiveSet(t)) :: EntryOf(t[SlotOf(t, p)]);
    forall i: nat ensures EntryAt(t, m, i) {
      if Live(t, i) {
        assert i in LiveSet(t);
        assert PathOf(t, i) in PathsOf(t, LiveSet(t));
        PathOfInjective(t, SlotOf(t, PathOf(t, i)), i);
      }
    }
    assert forall p :: FromSlot(t, m, p);
    assert IsAbs(t, m);
  }

  /** The abstraction function; `IsAbs` determines it. */
  ghost function Abs(t: Nodes): (m: Files)
    requires Tree(t)
    ensures IsAbs(t, m)
  {
    AbsExists(t);
    var m :| IsAbs(t, m); m
  }

  lemma AbsUnique(t: Nodes, m: Files)
    requires Tree(t) && IsAbs(t, m)
    ensures m == Abs(t)
  {
    forall p | p in m ensures p in Abs(t) && m[p] == Abs(t)[p] { AbsEntry(t, m, Abs(t), p); }
    forall p | p in Abs(t) ensures p in m { AbsEntry(t, Abs(t), m, p); }
  }

  lemma AbsEntry(t: Nodes, m: Files, n: Files, p: Path)
    requires Tree(t) && IsAbs(t, m) && IsAbs(t, n) && p in m
    ensures p in n && m[p] == n[p]
  {
    assert FromSlot(t, m, p);
    var i: nat :| Live(t, i) && PathOf(t, i) == p;
    assert EntryAt(t, m, i) && EntryAt(t, n, i);
  }

  lemma AbsAt(t: Nodes, i: nat)
    requires Tree(t) && Live(t, i)
    ensures PathOf(t, i) in Abs(t) && Abs(t)[PathOf(t, i)] == EntryOf(t[i])
  {
    assert EntryAt(t, Abs(t), i);
  }

  lemma AbsSlot(t: Nodes, p: Path) returns (i: nat)
    requires Tree(t) && p in Abs(t)
    ensures Live(t, i) && PathOf(t, i) == p
  {
    assert FromSlot(t, Abs(t), p);
    i :| Live(t, i) && PathOf(t, i) == p;
  }

  // ---- size: the table is full exactly when the map has one entry per slot -------------------

  lemma {:induction false} PathsCount(t: Nodes, s: set<nat>)
    requires Tree(t) && AllLive(t, s)
    ensures |PathsOf(t, s)| == |s|
  {
    if s != {} {
      var i :| i in s;
      var r := s - {i};
      PathsCount(t, r);
      forall j | j in r ensures PathOf(t, j) != PathOf(t, i) {
        if PathOf(t, j) == PathOf(t, i) { PathOfInjective(t, i, j); }
      }
      assert PathsOf(t, s) == PathsOf(t, r) + {PathOf(t, i)};
    } else {
      assert PathsOf(t, s) == {};
    }
  }

  lemma {:induction false} FullSet(s: set<nat>, n: nat)
    requires forall x: nat :: x in s <==> x < n
    ensures |s| == n
  {
    if n > 0 {
      FullSet(s - {n - 1}, n - 1);
    } else {
      assert s == {};
    }
  }

  lemma AbsSize(t: Nodes)
    requires Tree(t)
    ensures |Abs(t)| == |LiveSet(t)| <= |t|
    ensures |Abs(t)| >= |t| <==> FirstFree(t) == -1
  {
    PathsCount(t, LiveSet(t));
    forall p ensures p in Abs(t) <==> p in PathsOf(t, LiveSet(t)) {
      if p in Abs(t) { var i := AbsSlot(t, p); assert i in LiveSet(t); }
      if p in PathsOf(t, LiveSet(t)) { AbsAt(t, SlotOf(t, p)); }
    }
    assert Abs(t).Keys == PathsOf(t, LiveSet(t));
    SubsetBelow(LiveSet(t), |t|);
    if FirstFree(t) == -1 {
      FullSet(LiveSet(t), |t|);
    } else {
      assert FirstFree(t) !in LiveSet(t);
    }
  }

  // ---- lookups ---------------------------------------------------------------------------------

  lemma StepMatches(t: Nodes, i: nat, c: Name)
    requires Tree(t) && Live(t, i) && Component(c)
    ensures var r := Descend(t, i, c);
      match Step(Abs(t), PathOf(t, i), c)
      case None => r == -1
      case Some(p) => Live(t, r) && PathOf(t, r) == p
  {
    if c == DOTDOT && i != 0 {
      PathOfChild(t, i);
    } else if !IsDots(c) {
      FindChildIsPath(t, i, c);
      var p := PathOf(t, i) + [c];
      if p in Abs(t) {
        var j := AbsSlot(t, p);
      } else if FindChild(t, i, c) >= 0 {
        AbsAt(t, FindChild(t, i, c));
      }
    }
  }

  lemma {:induction false} WalkMatches(t: Nodes, i: nat, cs: Path)
    requires Tree(t) && Live(t, i)
    requires forall k :: 0 <= k < |cs| ==> Component(cs[k])
    ensures var r := Walk(t, i, cs);
      match Follow(Abs(t), PathOf(t, i), cs)
      case None => r == -1
      case Some(p) => Live(t, r) && PathOf(t, r) == p
    decreases |cs|
  {
    if cs != [] {
      StepMatches(t, i, cs[0]);
      var next := Descend(t, i, cs[0]);
      if next >= 0 { WalkMatches(t, next, cs[1..]); }
    }
  }

  /** `fs_resolve` is path lookup in the map. */
  lemma ResolveRefines(t: Nodes, cwd: nat, path: seq<byte>)
    requires Tree(t) && Live(t, cwd)
    ensures var r := Resolve(t, cwd, path);
      match Find(Abs(t), PathOf(t, cwd), path)
      case None => r == -1
      case Some(p) => Live(t, r) && PathOf(t, r) == p && p in Abs(t) && Abs(t)[p] == EntryOf(t[r])
  {
    WalkMatches(t, Start(cwd, path), Components(path));
    var r := Resolve(t, cwd, path);
    if r >= 0 { AbsAt(t, r); }
  }

  lemma LocateRefines(t: Nodes, cwd: nat, path: cstring)
    requires Tree(t) && LiveDir(t, cwd)
    ensures var g := Locate(t, cwd, path);
      match Place(Abs(t), PathOf(t, cwd), path)
      case None => g.NoTarget?
      case Some((dir, leaf)) =>
        g.Target? && LiveDir(t, g.parent) && PathOf(t, g.parent) == dir && g.leaf == leaf
  {
    var slash := LastSlash(path);
    assert slash < 0 ==> path[slash + 1..] == path;
    if slash > 0 {
      ResolveRefines(t, cwd, path[..slash]);
    } else if slash == 0 {
      assert Components([SLASH]) == Components([]);
      AbsAt(t, 0);
    }
  }

  // ---- updates ---------------------------------------------------------------------------------

  /** Same parent links and names wherever both tables have a live node. */
  ghost predicate SameLinks(t: Nodes, u: Nodes) {
    |t| == |u| && forall i :: Live(t, i) && Live(u, i) ==> t[i].parent == u[i].parent && t[i].Title() == u[i].Title()
  }

  lemma {:induction false} PathFrame(t: Nodes, u: Nodes, i: nat)
    requires Tree(t) && Tree(u) && SameLinks(t, u) && Live(t, i) && Live(u, i)
    ensures PathOf(t, i) == PathOf(u, i)
    decreases Depths(t)[i]
  {
    if i != 0 {
      ParentFacts(t, i);
      ParentFacts(u, i);
      PathFrame(t, u, t[i].parent);
    }
  }

  /** A node that is live in the first table has the same slot and path in the second. */
  ghost predicate KeepsNode(t: Nodes, u: Nodes, i: nat)
    requires Tree(t) && Tree(u)
  {
    Live(t, i) ==> Live(u, i) && PathOf(u, i) == PathOf(t, i)
  }

  ghost predicate KeepsNodes(t: Nodes, u: Nodes)
    requires Tree(t) && Tree(u)
  {
    forall i: nat :: KeepsNode(t, u, i)
  }

  lemma FrameKeeps(t: Nodes, u: Nodes)
    requires Tree(t) && Tree(u) && SameLinks(t, u)
    requires forall i: nat :: Live(t, i) ==> Live(u, i)
    ensures KeepsNodes(t, u)
  {
    forall i: nat ensures KeepsNode(t, u, i) {
      if Live(t, i) { PathFrame(t, u, i); }
    }
  }

  /** The tables differ at slot `k` at most, where they may only have a node with path `q`. */
  ghost predicate DifferAt(t: Nodes, u: Nodes, k: nat, q: Path) {
    && Tree(t) && Tree(u) && SameLinks(t, u) && k < |t|
    && (forall i :: 0 <= i < |t| && i != k ==> t[i] == u[i])
    && (Live(t, k) ==> PathOf(t, k) == q) && (Live(u, k) ==> PathOf(u, k) == q)
  }

  lemma AbsSubset(t: Nodes, u: Nodes, k: nat, q: Path, p: Path)
    requires DifferAt(t, u, k, q) && p != q && p in Abs(t)
    ensures p in Abs(u) && Abs(u)[p] == Abs(t)[p]
  {
    var i := AbsSlot(t, p);
    AbsAt(t, i);
    PathFrame(t, u, i);
    AbsAt(u, i);
  }

  predicate SameAt(m: Files, m': Files, p: Path) {
    (p in m <==> p in m') && (p in m ==> m[p] == m'[p])
  }

  /** Then the two maps agree everywhere else. */
  lemma AbsAway(t: Nodes, u: Nodes, k: nat, q: Path)
    requires DifferAt(t, u, k, q) && DifferAt(u, t, k, q)
    ensures forall p :: p != q ==> SameAt(Abs(t), Abs(u), p)
  {
    forall p | p != q ensures SameAt(Abs(t), Abs(u), p) {
      if p in Abs(t) {
        AbsSubset(t, u, k, q, p);
      } else if p in Abs(u) {
        AbsSubset(u, t, k, q, p);
      }
    }
  }

  lemma MapsAgree(m: Files, m': Files, q: Path)
    requires forall p :: p != q ==> SameAt(m, m', p)
    ensures q in m' ==> m' == m[q := m'[q]]
    ensures q !in m' ==> m' == m - {q}
  {
    assert forall p :: p in m && p != q ==> SameAt(m, m', p);
    assert forall p :: p in m' && p != q ==> SameAt(m, m', p);
  }

  lemma AbsSet(t: Nodes, u: Nodes, k: nat, q: Path)
    requires DifferAt(t, u, k, q) && DifferAt(u, t, k, q) && Live(u, k)
    ensures Abs(u) == Abs(t)[q := EntryOf(u[k])]
  {
    AbsAway(t, u, k, q);
    AbsAt(u, k);
    MapsAgree(Abs(t), Abs(u), q);
  }

  lemma AbsUnset(t: Nodes, u: Nodes, k: nat, q: Path)
    requires DifferAt(t, u, k, q) && DifferAt(u, t, k, q) && Live(t, k) && !Live(u, k)
    ensures Abs(u) == Abs(t) - {q}
  {
    AbsAway(t, u, k, q);
    if q in Abs(u) {
      var i := AbsSlot(u, q);
      PathFrame(u, t, i);
      PathOfInjective(t, i, k);
    }
    MapsAgree(Abs(t), Abs(u), q);
  }

  /** A slot that is filled with a new child of a live directory. */
  ghost predicate Plants(t: Nodes, u: Nodes, k: nat, parent: int, leaf: Name) {
    && 1 <= k < |t| && !t[k].used
    && LiveDir(t, parent) && ValidName(leaf) && FindChild(t, parent, leaf) == -1
    && |u| == |t| && (forall i :: 0 <= i < |t| && i != k ==> t[i] == u[i]) && NodeOk(u[k])
    && u[k].used && u[k].parent == parent && u[k].Title() == leaf
  }

  lemma PlantKeepsTree(t: Nodes, u: Nodes, k: nat, parent: nat, leaf: Name)
    requires Tree(t) && Plants(t, u, k, parent, leaf)
    ensures Tree(u) && SameLinks(t, u)
  {
    forall i | 0 <= i < |u| ensures LinkOk(u, i) { assert LinkOk(t, i); }
    forall i, j | 0 <= i < |u| && 0 <= j < |u| ensures SiblingsOk(u, i, j) {
      assert SiblingsOk(t, i, j);
      assert !IsChild(t, parent, leaf, i) && !IsChild(t, parent, leaf, j);
    }
    var d := Depths(t);
    var e := d[k := d[parent] + 1];
    forall i | 0 <= i < |u| ensures RankOk(u, e, i) { assert RankOk(t, d, i) && LinkOk(t, i); }
    assert TreeWith(u, e);
  }

  /** Planting adds exactly one path to the map. */
  lemma PlantRefines(t: Nodes, u: Nodes, k: nat, parent: nat, leaf: Name)
    requires Tree(t) && Plants(t, u, k, parent, leaf)
    ensures Tree(u)
    ensures KeepsNodes(t, u)
    ensures PathOf(u, k) == PathOf(t, parent) + [leaf]
    ensures Abs(u) == Abs(t)[PathOf(t, parent) + [leaf] := EntryOf(u[k])]
  {
    PlantKeepsTree(t, u, k, parent, leaf);
    PathOfChild(u, k);
    PathFrame(t, u, parent);
    FrameKeeps(t, u);
    AbsSet(t, u, k, PathOf(t, parent) + [leaf]);
  }

  /** A live slot whose links stay: owner, mode or content changes. */
  ghost predicate Edits(t: Nodes, u: Nodes, k: nat) {
    && Live(t, k) && |u| == |t| && (forall i :: 0 <= i < |t| && i != k ==> t[i] == u[i]) && NodeOk(u[k])
    && u[k].used && u[k].isDir == t[k].isDir && u[k].parent == t[k].parent && u[k].name == t[k].name
  }

  /** Nothing that makes up the tree differs. */
  predicate SameNode(n: Node, m: Node) {
    n.used == m.used && n.isDir == m.isDir && n.parent == m.parent && n.name == m.name && NodeOk(m)
  }

  lemma SameTree(t: Nodes, u: Nodes)
    requires Tree(t) && |u| == |t| && forall i :: 0 <= i < |t| ==> SameNode(t[i], u[i])
    ensures Tree(u) && SameLinks(t, u)
  {
    var d := Depths(t);
    forall i | 0 <= i < |u| ensures NodeOk(u[i]) && 0 <= u[i].parent < |u| { assert SameNode(t[i], u[i]); }
    forall i | 0 <= i < |u| ensures LinkOk(u, i) && RankOk(u, d, i) {
      assert SameNode(t[i], u[i]) && LinkOk(t, i) && RankOk(t, d, i);
      if t[i].used && i != 0 { assert SameNode(t[t[i].parent], u[t[i].parent]); }
    }
    forall i, j | 0 <= i < |u| && 0 <= j < |u| ensures SiblingsOk(u, i, j) {
      assert SameNode(t[i], u[i]) && SameNode(t[j], u[j]) && SiblingsOk(t, i, j);
    }
    assert RootOk(u[0]) by { assert SameNode(t[0], u[0]) && RootOk(t[0]); }
    assert TreeWith(u, d);
  }

  lemma EditKeepsTree(t: Nodes, u: Nodes, k: nat)
    requires Tree(t) && Edits(t, u, k)
    ensures Tree(u) && SameLinks(t, u)
  {
    forall i | 0 <= i < |t| ensures SameNode(t[i], u[i]) { assert NodeOk(t[i]); }
    SameTree(t, u);
  }

  lemma EditRefines(t: Nodes, u: Nodes, k: nat)
    requires Tree(t) && Edits(t, u, k)
    ensures Tree(u)
    ensures KeepsNodes(t, u)
    ensures Abs(u) == Abs(t)[PathOf(t, k) := EntryOf(u[k])]
  {
    EditKeepsTree(t, u, k);
    PathFrame(t, u, k);
    FrameKeeps(t, u);
    AbsSet(t, u, k, PathOf(t, k));
  }

  ghost predicate GoodTarget(t: Nodes, g: Target) {
    g.Target? ==> LiveDir(t, g.parent) && ValidName(g.leaf)
  }

  /** The case in which `CreateAt` fills a slot. */
  predicate Creates(t: Nodes, g: Target)
    requires |t| >= 1
  {
    g.Target? && FindChild(t, g.parent, g.leaf) == -1 && FirstFree(t) >= 0
  }

  lemma CreatePlants(t: Nodes, g: Target, isDir: bool, owner: uint16, mode: uint16)
    requires Tree(t) && GoodTarget(t, g) && Creates(t, g)
    ensures var (u, rc) := CreateAt(t, g, isDir, owner, mode);
      var k := FirstFree(t);
      rc == 0 && Plants(t, u, k, g.parent, g.leaf) && EntryOf(u[k]) == Fresh(isDir, owner, mode)
  {
    var k := FirstFree(t);
    NewNodeOk(t[k], isDir, g.parent, owner, mode, g.leaf);
    var n := NewNode(t[k], isDir, g.parent, owner, mode, g.leaf);
    assert n.Content() == [];
  }

  lemma PlaceInMap(t: Nodes, parent: nat, leaf: Name)
    requires Tree(t) && LiveDir(t, parent) && ValidName(leaf)
    ensures var e := FindChild(t, parent, leaf);
      var p := PathOf(t, parent) + [leaf];
      if e >= 0 then p in Abs(t) && Abs(t)[p] == EntryOf(t[e]) else p !in Abs(t)
  {
    FindChildIsPath(t, parent, leaf);
    var e := FindChild(t, parent, leaf);
    var p := PathOf(t, parent) + [leaf];
    if e >= 0 {
      AbsAt(t, e);
    } else if p in Abs(t) {
      var j := AbsSlot(t, p);
    }
  }

  ghost function PlaceOf(t: Nodes, g: Target): Option<(Path, Name)>
    requires Tree(t) && GoodTarget(t, g)
  {
    if g.Target? then Some((PathOf(t, g.parent), g.leaf)) else None
  }

  /** An operation that leaves table `u` and returns `rc` does what the map operation with
      result `spec` does; when it fails it changes nothing, and no node moves. */
  ghost predicate Does(t: Nodes, u: Nodes, rc: int, spec: (Files, int))
    requires Tree(t)
  {
    Tree(u) && KeepsNodes(t, u) && (Abs(u), rc) == spec && (rc != 0 ==> u == t)
  }

  lemma CreateNew(t: Nodes, g: Target, isDir: bool, owner: uint16, mode: uint16)
    requires Tree(t) && GoodTarget(t, g) && Creates(t, g)
    ensures var (u, rc) := CreateAt(t, g, isDir, owner, mode);
      Does(t, u, rc, (Abs(t)[PathOf(t, g.parent) + [g.leaf] := Fresh(isDir, owner, mode)], 0))
  {
    CreatePlants(t, g, isDir, owner, mode);
    PlantRefines(t, CreateAt(t, g, isDir, owner, mode).0, FirstFree(t), g.parent, g.leaf);
  }

  lemma CreateAtRefines(t: Nodes, g: Target, isDir: bool, owner: uint16, mode: uint16)
    requires Tree(t) && GoodTarget(t, g)
    ensures var (u, rc) := CreateAt(t, g, isDir, owner, mode);
      Does(t, u, rc, MakeAt(Abs(t), |t|, PlaceOf(t, g), isDir, owner, mode)) && (!Creates(t, g) ==> u == t)
  {
    FrameKeeps(t, t);
    if g.Target? {
      PlaceInMap(t, g.parent, g.leaf);
      AbsSize(t);
      if Creates(t, g) {
        CreateNew(t, g, isDir, owner, mode);
      }
    }
  }

  /** `fs_mkdir_as` and `fs_touch_as` are `Make`; failure changes nothing, and every node
      that was live keeps its slot and its path. */
  lemma CreateRefines(t: Nodes, cwd: nat, path: cstring, isDir: bool, owner: uint16, mode: uint16)
    requires Tree(t) && LiveDir(t, cwd)
    ensures var (u, rc) := Create(t, cwd, path, isDir, owner, mode);
      Does(t, u, rc, Make(Abs(t), |t|, PathOf(t, cwd), path, isDir, owner, mode))
  {
    LocateRefines(t, cwd, path);
    CreateAtRefines(t, Locate(t, cwd, path), isDir, owner, mode);
  }

  /** The bytes a write of `size` leaves in a slot: the first `Capped(size)` bytes given, or
      what its data buffer held when the pointer is null. */
  function BytesFor(n: Node, data: Option<seq<byte>>, size: nat): seq<byte>
    requires Buffers(n) && (data.Some? ==> size <= |data.value|)
  {
    if data.Some? then data.value[..Capped(size)] else n.data[..Capped(size)]
  }

  /** The slot `fs_write_file` writes: the one the path leads to, or a free one, cleared. */
  function SlotFor(t: Nodes, cwd: nat, path: cstring): (n: Node)
    requires Shape(t) && cwd < |t|
    ensures Buffers(n)
  {
    var k := Resolve(t, cwd, path);
    if k >= 0 then t[k] else Cleared(t)
  }

  function Cleared(t: Nodes): (n: Node)
    requires Shape(t)
    ensures Buffers(n)
  {
    var k := FirstFree(t);
    if k >= 0 then t[k].(data := t[k].data[0 := NUL]) else BlankNode()
  }

  lemma WrittenContent(n: Node, data: Option<seq<byte>>, size: nat)
    requires NodeOk(n) && (data.Some? ==> size <= |data.value|)
    ensures var w := Written(n, data, size); NodeOk(w) && w.Content() == BytesFor(n, data, size)
  {
  }

  /** The same nodes are where they were, possibly with others added. */
  ghost predicate Extends(t: Nodes, u: Nodes) {
    && Tree(t) && Tree(u) && |t| == |u| && KeepsNodes(t, u)
    && (forall i :: 0 <= i < |t| && t[i].used ==> u[i] == t[i])
  }

  lemma {:induction false} WalkStable(t: Nodes, u: Nodes, cur: nat, cs: Path)
    requires Extends(t, u) && Live(t, cur)
    requires forall k :: 0 <= k < |cs| ==> Component(cs[k])
    requires Walk(t, cur, cs) >= 0
    ensures Walk(u, cur, cs) == Walk(t, cur, cs)
    decreases |cs|
  {
    if cs != [] {
      var next := Descend(t, cur, cs[0]);
      if cur != 0 { ParentFacts(t, cur); }
      if !IsDots(cs[0]) {
        FindChildIsPath(t, cur, cs[0]);
        FindChildIsPath(u, cur, cs[0]);
        assert KeepsNode(t, u, cur) && KeepsNode(t, u, next);
      }
      WalkStable(t, u, next, cs[1..]);
    }
  }

  /** Adding nodes does not move the target of a path. */
  lemma LocateStable(t: Nodes, u: Nodes, cwd: nat, path: cstring)
    requires Extends(t, u) && LiveDir(t, cwd)
    requires Locate(t, cwd, path).Target?
    ensures Locate(u, cwd, path) == Locate(t, cwd, path)
  {
    var slash := LastSlash(path);
    if slash > 0 {
      WalkStable(t, u, Start(cwd, path[..slash]), Components(path[..slash]));
      ResolveLive(t, cwd, path[..slash]);
      assert u[Resolve(t, cwd, path[..slash])] == t[Resolve(t, cwd, path[..slash])];
    }
  }

  /** After a touch that succeeds where resolution failed, resolution finds the new file. */
  lemma TouchThenResolve(t: Nodes, cwd: nat, path: cstring)
    requires Tree(t) && LiveDir(t, cwd) && Resolve(t, cwd, path) == -1
    requires Locate(t, cwd, path).Target? && FirstFree(t) >= 0
    ensures var g, k := Locate(t, cwd, path), FirstFree(t);
      var (u, rc) := Create(t, cwd, path, false, 0, FILE_MODE);
      && GoodTarget(t, g) && Creates(t, g) && rc == 0
      && Plants(t, u, k, g.parent, g.leaf) && EntryOf(u[k]) == Fresh(false, 0, FILE_MODE)
      && Tree(u) && KeepsNodes(t, u) && Resolve(u, cwd, path) == k
  {
    var g, k := Locate(t, cwd, path), FirstFree(t);
    LocateAgreesWithResolve(t, cwd, path);
    LocateLiveDir(t, cwd, path);
    if g.parent != 0 { ParentFacts(t, g.parent); }
    CreatePlants(t, g, false, 0, FILE_MODE);
    var u := CreateAt(t, g, false, 0, FILE_MODE).0;
    PlantRefines(t, u, k, g.parent, g.leaf);
    LocateStable(t, u, cwd, path);
    LocateAgreesWithResolve(u, cwd, path);
    FindChildIsPath(u, g.parent, g.leaf);
  }

  /** One path gets one entry; nothing else changes. */
  ghost predicate Sets(t: Nodes, u: Nodes, q: Path, e: Entry) {
    Tree(t) && Tree(u) && KeepsNodes(t, u) && Abs(u) == Abs(t)[q := e]
  }

  lemma SetsTwice(t: Nodes, u: Nodes, v: Nodes, q: Path, e: Entry, e': Entry)
    requires Sets(t, u, q, e) && Sets(u, v, q, e')
    ensures Sets(t, v, q, e')
  {
    forall i: nat ensures KeepsNode(t, v, i) {
      assert KeepsNode(t, u, i) && KeepsNode(u, v, i);
    }
    var m := Abs(t);
    assert m[q := e][q := e'] == m[q := e'];
  }

  lemma StoreRefines(t: Nodes, k: nat, data: Option<seq<byte>>, size: nat)
    requires Tree(t) && Live(t, k) && (data.Some? ==> size <= |data.value|)
    ensures var w := Store(t, k, data, size);
      if t[k].isDir then w.1 == -1 && w.0 == t
      else w.1 == 0 && Sets(t, w.0, PathOf(t, k), File(t[k].owner, t[k].mode, BytesFor(t[k], data, size)))
  {
    if !t[k].isDir {
      WrittenContent(t[k], data, size);
      EditRefines(t, Store(t, k, data, size).0, k);
    }
  }

  lemma FreshFile()
    ensures Fresh(false, 0, FILE_MODE) == File(0, FILE_MODE, [])
  {
  }

  /** Touching and then storing is one update of the map. */
  lemma WriteNew(t: Nodes, g: Target, data: Option<seq<byte>>, size: nat)
    requires Tree(t) && (data.Some? ==> size <= |data.value|)
    requires GoodTarget(t, g) && Creates(t, g)
    ensures Shape(CreateAt(t, g, false, 0, FILE_MODE).0)
    ensures var w := Store(CreateAt(t, g, false, 0, FILE_MODE).0, FirstFree(t), data, size);
      w.1 == 0 && Sets(t, w.0, PathOf(t, g.parent) + [g.leaf], File(0, FILE_MODE, BytesFor(Cleared(t), data, size)))
  {
    var u := CreateAt(t, g, false, 0, FILE_MODE).0;
    var k := FirstFree(t);
    var q := PathOf(t, g.parent) + [g.leaf];
    CreatePlants(t, g, false, 0, FILE_MODE);
    PlantRefines(t, u, k, g.parent, g.leaf);
    FreshFile();
    StoreRefines(u, k, data, size);
    var w := Store(u, k, data, size);
    var e := File(0, FILE_MODE, BytesFor(Cleared(t), data, size));
    assert BytesFor(u[k], data, size) == BytesFor(Cleared(t), data, size);
    assert Sets(u, w.0, q, e);
    SetsTwice(t, u, w.0, q, EntryOf(u[k]), e);
  }

  /** What `fs_write_file` amounts to: its second resolution never fails and finds the slot
      its touch filled. */
  lemma WriteIs(t: Nodes, cwd: nat, path: cstring, data: Option<seq<byte>>, size: nat)
    requires Tree(t) && LiveDir(t, cwd) && (data.Some? ==> size <= |data.value|)
    ensures var k, g := Resolve(t, cwd, path), Locate(t, cwd, path);
      && (k == -1 && g.Target? ==> GoodTarget(t, g) && FindChild(t, g.parent, g.leaf) == -1)
      && Shape(CreateAt(t, g, false, 0, FILE_MODE).0)
      && Write(t, cwd, path, data, size)
         == if k >= 0 then Store(t, k, data, size)
            else if Creates(t, g) then Store(CreateAt(t, g, false, 0, FILE_MODE).0, FirstFree(t), data, size)
            else (t, -1, -1)
  {
    var k, g := Resolve(t, cwd, path), Locate(t, cwd, path);
    CreateBuffered(t, g, false, 0, FILE_MODE);
    if k == -1 && g.Target? {
      LocateAgreesWithResolve(t, cwd, path);
      LocateLiveDir(t, cwd, path);
      if g.parent != 0 { ParentFacts(t, g.parent); }
      if Creates(t, g) {
        TouchThenResolve(t, cwd, path);
      }
    }
  }

  lemma StoreIsPut(t: Nodes, k: nat, data: Option<seq<byte>>, size: nat, place: Option<(Path, Name)>)
    requires Tree(t) && Live(t, k) && (data.Some? ==> size <= |data.value|)
    ensures var w := Store(t, k, data, size);
      Does(t, w.0, w.1, PutAt(Abs(t), |t|, Some(PathOf(t, k)), place, BytesFor(t[k], data, size)))
  {
    FrameKeeps(t, t);
    AbsAt(t, k);
    StoreRefines(t, k, data, size);
  }

  lemma WriteNewIsPut(t: Nodes, g: Target, data: Option<seq<byte>>, size: nat)
    requires Tree(t) && (data.Some? ==> size <= |data.value|)
    requires GoodTarget(t, g) && Creates(t, g)
    ensures Shape(CreateAt(t, g, false, 0, FILE_MODE).0)
    ensures var w := Store(CreateAt(t, g, false, 0, FILE_MODE).0, FirstFree(t), data, size);
      Does(t, w.0, w.1, PutAt(Abs(t), |t|, None, PlaceOf(t, g), BytesFor(Cleared(t), data, size)))
  {
    AbsSize(t);
    WriteNew(t, g, data, size);
  }

  lemma NoRoomIsPut(t: Nodes, g: Target, content: seq<byte>)
    requires Tree(t) && GoodTarget(t, g) && !Creates(t, g)
    requires g.Target? ==> FindChild(t, g.parent, g.leaf) == -1
    ensures Does(t, t, -1, PutAt(Abs(t), |t|, None, PlaceOf(t, g), content))
  {
    FrameKeeps(t, t);
    AbsSize(t);
  }

  /** The two lookups of `fs_write_file`, seen in the map. */
  lemma LookupsRefine(t: Nodes, cwd: nat, path: cstring)
    requires Tree(t) && LiveDir(t, cwd)
    ensures var k, g := Resolve(t, cwd, path), Locate(t, cwd, path);
      && (k >= 0 ==> Live(t, k)) && GoodTarget(t, g)
      && Find(Abs(t), PathOf(t, cwd), path) == (if k >= 0 then Some(PathOf(t, k)) else None)
      && Place(Abs(t), PathOf(t, cwd), path) == PlaceOf(t, g)
  {
    ResolveRefines(t, cwd, path);
    LocateRefines(t, cwd, path);
  }

  /** `fs_write_file` is `Put`: in particular, once its touch has succeeded nothing can fail,
      and a failure changes nothing. */
  lemma WriteRefines(t: Nodes, cwd: nat, path: cstring, data: Option<seq<byte>>, size: nat)
    requires Tree(t) && LiveDir(t, cwd) && (data.Some? ==> size <= |data.value|)
    ensures var w := Write(t, cwd, path, data, size);
      Does(t, w.0, w.1, Put(Abs(t), |t|, PathOf(t, cwd), path, BytesFor(SlotFor(t, cwd, path), data, size)))
  {
    var k, g := Resolve(t, cwd, path), Locate(t, cwd, path);
    WriteIs(t, cwd, path, data, size);
    LookupsRefine(t, cwd, path);
    if k >= 0 {
      StoreIsPut(t, k, data, size, PlaceOf(t, g));
    } else if Creates(t, g) {
      WriteNewIsPut(t, g, data, size);
    } else {
      NoRoomIsPut(t, g, BytesFor(Cleared(t), data, size));
    }
  }

  lemma RemoveKeepsTree(t: Nodes, u: Nodes, k: nat)
    requires Tree(t) && Live(t, k) && k != 0 && !HasChild(t, k)
    requires u == t[k := t[k].(used := false)]
    ensures Tree(u) && SameLinks(t, u)
  {
    forall i | 0 <= i < |u| ensures LinkOk(u, i) { assert LinkOk(t, i); }
    forall i, j | 0 <= i < |u| && 0 <= j < |u| ensures SiblingsOk(u, i, j) { assert SiblingsOk(t, i, j); }
    forall i | 0 <= i < |u| ensures RankOk(u, Depths(t), i) { assert RankOk(t, Depths(t), i); }
    assert TreeWith(u, Depths(t));
  }

  lemma RemoveNode(t: Nodes, k: nat)
    requires Tree(t) && Live(t, k) && k != 0 && !HasChild(t, k)
    ensures var u := t[k := t[k].(used := false)];
      Tree(u) && KeepsNodes(u, t) && Abs(u) == Abs(t) - {PathOf(t, k)}
  {
    var u := t[k := t[k].(used := false)];
    RemoveKeepsTree(t, u, k);
    FrameKeeps(u, t);
    AbsUnset(t, u, k, PathOf(t, k));
  }

  /** A node has a child slot exactly when its path is a directory path with entries below. */
  lemma HasChildIsNonEmpty(t: Nodes, k: nat)
    requires Tree(t) && Live(t, k) && k != 0
    ensures HasChild(t, k) <==> NonEmptyDir(Abs(t), PathOf(t, k))
    ensures HasChild(t, k) ==> t[k].isDir
  {
    if HasChild(t, k) {
      var i: nat :| i < |t| && t[i].used && t[i].parent == k;
      PathOfChild(t, i);
      AbsAt(t, i);
      assert PathOf(t, k) + [t[i].Title()] in Abs(t);
    }
    if NonEmptyDir(Abs(t), PathOf(t, k)) {
      var c :| PathOf(t, k) + [c] in Abs(t);
      var i := AbsSlot(t, PathOf(t, k) + [c]);
      PathOfChild(t, i);
      PathOfInjective(t, t[i].parent, k);
    }
  }

  /** `fs_remove` is `Drop`; the remaining nodes keep their slots and paths. */
  lemma RemoveRefines(t: Nodes, cwd: nat, path: cstring)
    requires Tree(t) && Live(t, cwd)
    ensures var (u, rc) := Remove(t, cwd, path);
      && Tree(u)
      && (Abs(u), rc) == Drop(Abs(t), PathOf(t, cwd), path)
      && (rc != 0 ==> u == t)
      && KeepsNodes(u, t)
  {
    ResolveRefines(t, cwd, path);
    var (u, rc) := Remove(t, cwd, path);
    var k := Resolve(t, cwd, path);
    if k > 0 {
      HasChildIsNonEmpty(t, k);
      PathOfChild(t, k);
      if rc == 0 {
        RemoveNode(t, k);
      }
    }
  }

  /** `fs_set_owner` and `fs_set_mode` change one field of one entry. */
  lemma SetFieldsRefine(t: Nodes, node: nat, owner: uint16, mode: uint16)
    requires Tree(t) && Live(t, node)
    ensures PathOf(t, node) in Abs(t)
    ensures var p := PathOf(t, node);
      && Does(t, SetOwner(t, node, owner).0, 0, (Abs(t)[p := Abs(t)[p].(owner := owner)], 0))
      && Does(t, SetMode(t, node, mode).0, 0, (Abs(t)[p := Abs(t)[p].(mode := mode % 512)], 0))
  {
    AbsAt(t, node);
    EditRefines(t, SetOwner(t, node, owner).0, node);
    EditRefines(t, SetMode(t, node, mode).0, node);
  }

  /** `fs_read_file` is `Get`. */
  lemma ReadRefines(t: Nodes, cwd: nat, path: seq<byte>)
    requires Tree(t) && Live(t, cwd)
    ensures var k := Resolve(t, cwd, path);
      Get(Abs(t), PathOf(t, cwd), path) == if k < 0 || t[k].isDir then None else Some(t[k].Content())
  {
    ResolveRefines(t, cwd, path);
  }

  /** What is written is read back, from the same directory by the same path: once
      `fs_write_file` has succeeded, `fs_read_file` finds the bytes it left. */
  lemma WriteThenRead(t: Nodes, cwd: nat, path: cstring, data: Option<seq<byte>>, size: nat)
    requires Tree(t) && LiveDir(t, cwd) && (data.Some? ==> size <= |data.value|)
    requires Write(t, cwd, path, data, size).1 == 0
    ensures var u := Write(t, cwd, path, data, size).0;
      && Tree(u) && Live(u, cwd)
      && Get(Abs(u), PathOf(u, cwd), path) == Some(BytesFor(SlotFor(t, cwd, path), data, size))
      && var k := Resolve(u, cwd, path);
      k >= 0 && !u[k].isDir && u[k].Content() == BytesFor(SlotFor(t, cwd, path), data, size)
  {
    var u := Write(t, cwd, path, data, size).0;
    WriteRefines(t, cwd, path, data, size);
    assert KeepsNode(t, u, cwd);
    PutThenGet(Abs(t), |t|, PathOf(t, cwd), path, BytesFor(SlotFor(t, cwd, path), data, size));
    ReadRefines(u, cwd, path);
  }

  /** And what is removed is gone: nothing can be read at its path. */
  lemma RemoveThenRead(t: Nodes, cwd: nat, path: cstring)
    requires Tree(t) && Live(t, cwd) && Remove(t, cwd, path).1 == 0
    ensures var u := Remove(t, cwd, path).0;
      Tree(u) && Get(Abs(u), PathOf(t, cwd), path) == None
  {
    RemoveRefines(t, cwd, path);
    DropThenGet(Abs(t), PathOf(t, cwd), path);
  }
}
