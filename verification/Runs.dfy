/** Whole runs of the file system: what every sequence of operations from `fs_init` keeps. */
module Runs {
  import opened Bytes
  import opened Paths
  import opened Table
  import opened NodeTree
  import opened PathMap
  import opened Refinement
  import opened Listing

  datatype Op =
    | Mkdir(cwd: nat, path: cstring, owner: uint16, mode: uint16)
    | Touch(cwd: nat, path: cstring, owner: uint16, mode: uint16)
    | WriteFile(cwd: nat, path: cstring, data: Option<seq<byte>>, size: nat)
    | RemoveAt(cwd: nat, path: cstring)
    | Chown(node: int, owner: uint16)
    | Chmod(node: int, mode: uint16)
    | Reset

  /** What the caller owes: the current directory is live, and `data` has `size` bytes. */
  predicate Ready(t: Nodes, op: Op) {
    match op
    case Mkdir(cwd, _, _, _) => LiveDir(t, cwd)
    case Touch(cwd, _, _, _) => LiveDir(t, cwd)
    case WriteFile(cwd, _, data, size) => LiveDir(t, cwd) && (data.Some? ==> size <= |data.value|)
    case RemoveAt(cwd, _) => LiveDir(t, cwd)
    case Chown(_, _) => true
    case Chmod(_, _) => true
    case Reset => true
  }

  function Apply(t: Nodes, op: Op): (u: Nodes)
    requires Shape(t) && Ready(t, op)
    ensures |u| == |t|
  {
    match op
    case Mkdir(cwd, path, owner, mode) => Create(t, cwd, path, true, owner, mode).0
    case Touch(cwd, path, owner, mode) => Create(t, cwd, path, false, owner, mode).0
    case WriteFile(cwd, path, data, size) => Write(t, cwd, path, data, size).0
    case RemoveAt(cwd, path) => Remove(t, cwd, path).0
    case Chown(node, owner) => SetOwner(t, node, owner).0
    case Chmod(node, mode) => SetMode(t, node, mode).0
    case Reset => InitNodes(|t|)
  }

  /** The table of `fs_init` is a tree holding the root directory alone. */
  lemma InitIsTree(n: nat)
    requires n >= 1
    ensures Tree(InitNodes(n)) && Abs(InitNodes(n)) == map[[] := Dir(0, 493)]
  {
    var t := InitNodes(n);
    assert t[0] == RootNode();
    assert forall i :: 1 <= i < n ==> t[i] == BlankNode();
    assert TreeWith(t, seq(n, _ => 0));
    AbsAt(t, 0);
    forall p | p in Abs(t) ensures p == [] {
      var i := AbsSlot(t, p);
    }
  }

  lemma ApplyKeepsTree(t: Nodes, op: Op)
    requires Tree(t) && Ready(t, op)
    ensures Tree(Apply(t, op))
  {
    match op
    case Mkdir(cwd, path, owner, mode) => CreateRefines(t, cwd, path, true, owner, mode);
    case Touch(cwd, path, owner, mode) => CreateRefines(t, cwd, path, false, owner, mode);
    case WriteFile(cwd, path, data, size) => WriteRefines(t, cwd, path, data, size);
    case RemoveAt(cwd, path) => RemoveRefines(t, cwd, path);
    case Chown(node, owner) => if Live(t, node) { SetFieldsRefine(t, node, owner, 0); }
    case Chmod(node, mode) => if Live(t, node) { SetFieldsRefine(t, node, 0, mode); }
    case Reset => InitIsTree(|t|);
  }

  /** Every operation is called as the source demands. Nothing is assumed of the tables in
      between; that they are trees is what `RunKeepsTree` proves. */
  ghost predicate AllReady(t: Nodes, ops: seq<Op>)
    decreases |ops|
  {
    ops != [] ==> (Tree(t) ==> Ready(t, ops[0]) && AllReady(Apply(t, ops[0]), ops[1..]))
  }

  ghost function Run(t: Nodes, ops: seq<Op>): (u: Nodes)
    requires Tree(t) && AllReady(t, ops)
    ensures |u| == |t|
    decreases |ops|
  {
    if ops == [] then t
    else
      ApplyKeepsTree(t, ops[0]);
      Run(Apply(t, ops[0]), ops[1..])
  }

  lemma {:induction false} RunKeepsTree(t: Nodes, ops: seq<Op>)
    requires Tree(t) && AllReady(t, ops)
    ensures Tree(Run(t, ops))
    decreases |ops|
  {
    if ops != [] {
      ApplyKeepsTree(t, ops[0]);
      RunKeepsTree(Apply(t, ops[0]), ops[1..]);
    }
  }

  /** The shape of a file system, slot by slot: a live non-root node has a live directory as
      parent and a valid name, its parent chain ends at node 0 in at most N - 1 steps, and a
      live sibling has another name. */
  ghost predicate WellPlaced(t: Nodes, i: nat)
    requires InRange(t)
  {
    Live(t, i) ==>
      && ReachesRoot(t, i, |t| - 1)
      && (i != 0 ==> LiveDir(t, t[i].parent) && ValidName(t[i].Title()))
      && (forall j: nat :: Live(t, j) && 0 < i < j && t[i].parent == t[j].parent ==> t[i].Title() != t[j].Title())
  }

  lemma TreeIsWellPlaced(t: Nodes, i: nat)
    requires Tree(t)
    ensures WellPlaced(t, i)
  {
    if Live(t, i) {
      ChainEnds(t, i);
      if i != 0 { ParentFacts(t, i); }
      forall j: nat | Live(t, j) && 0 < i < j && t[i].parent == t[j].parent ensures t[i].Title() != t[j].Title() {
        assert SiblingsOk(t, i, j);
      }
    }
  }

  /** This holds on every run from `fs_init`, and the `fs_list` counts of all directories sum
      to the number of live nodes without the root. */
  lemma EveryRunIsATree(n: nat, ops: seq<Op>)
    requires n >= 1 && AllReady(InitNodes(n), ops)
    ensures Tree(InitNodes(n))
    ensures var t := Run(InitNodes(n), ops);
      && Tree(t) && LiveDir(t, 0)
      && (forall i: nat :: WellPlaced(t, i))
      && CountBelow(t, n) == |LiveSet(t)| - 1
  {
    InitIsTree(n);
    RunKeepsTree(InitNodes(n), ops);
    var t := Run(InitNodes(n), ops);
    assert RootOk(t[0]);
    forall i: nat ensures WellPlaced(t, i) {
      TreeIsWellPlaced(t, i);
    }
    CountsSumToLive(t);
  }

  // ---- why the current directory must be live ---------------------------------------------------

  /** From any slot as current directory, live or not: `fs_mkdir_as` and `fs_touch_as` keep the
      tree exactly when they create nothing or the directory they found is live. A removed
      current directory passes unchecked, with or without a leading "./". */
  lemma CreateNeedsLiveParent(t: Nodes, cwd: nat, path: cstring, isDir: bool, owner: uint16, mode: uint16)
    requires Tree(t) && cwd < |t|
    ensures var g := Locate(t, cwd, path);
      Tree(Create(t, cwd, path, isDir, owner, mode).0) <==> !(Creates(t, g) && !LiveDir(t, g.parent))
  {
    var g := Locate(t, cwd, path);
    var u := Create(t, cwd, path, isDir, owner, mode).0;
    if Creates(t, g) {
      if LiveDir(t, g.parent) {
        CreateAtRefines(t, g, isDir, owner, mode);
      } else if Tree(u) {
        OrphanIsNoTree(t, u, FirstFree(t), g.parent);
      }
    }
  }

  /** A node planted under a slot that is not a live directory spoils the tree, even when that
      slot is the one it is planted in. */
  lemma OrphanIsNoTree(t: Nodes, u: Nodes, k: nat, parent: int)
    requires Tree(t) && 1 <= k < |t| && !LiveDir(t, parent)
    requires |u| == |t| && u[k].used && u[k].parent == parent
    requires forall i :: 0 <= i < |t| && i != k ==> u[i].used == t[i].used && u[i].isDir == t[i].isDir
    ensures !Tree(u)
  {
    if Tree(u) { ParentFacts(u, k); }
  }

  lemma StoreKeepsTree(t: Nodes, k: int, data: Option<seq<byte>>, size: nat)
    requires Tree(t) && -1 <= k < |t| && (data.Some? ==> size <= |data.value|)
    ensures Tree(Store(t, k, data, size).0)
  {
    var u := Store(t, k, data, size).0;
    forall i | 0 <= i < |t| ensures SameNode(t[i], u[i]) { assert NodeOk(t[i]); }
    SameTree(t, u);
  }

  /** `fs_write_file` reaches the same unchecked branch through its touch: from any slot as
      current directory it keeps the tree exactly when the path already resolves, or when it
      creates nothing or the directory it found is live. */
  lemma WriteNeedsLiveParent(t: Nodes, cwd: nat, path: cstring, data: Option<seq<byte>>, size: nat)
    requires Tree(t) && cwd < |t| && (data.Some? ==> size <= |data.value|)
    ensures var g := Locate(t, cwd, path);
      Tree(Write(t, cwd, path, data, size).0)
      <==> Resolve(t, cwd, path) >= 0 || !(Creates(t, g) && !LiveDir(t, g.parent))
  {
    var k, g := Resolve(t, cwd, path), Locate(t, cwd, path);
    var (u, rc) := Create(t, cwd, path, false, 0, FILE_MODE);
    if k >= 0 {
      StoreKeepsTree(t, k, data, size);
    } else {
      CreateNeedsLiveParent(t, cwd, path, false, 0, FILE_MODE);
      CreateBuffered(t, g, false, 0, FILE_MODE);
      if rc == 0 {
        var j := Resolve(u, cwd, path);
        if Creates(t, g) && !LiveDir(t, g.parent) {
          OrphanIsNoTree(t, Store(u, j, data, size).0, FirstFree(t), g.parent);
        } else {
          StoreKeepsTree(u, j, data, size);
        }
      }
    }
  }

  const NAME_A: cstring := [97]
  const NAME_B: cstring := [98]

  /** A concrete failure: in a fresh file system `mkdir a`, `rm a`, and then `mkdir b` with the
      removed directory as current directory. The new node takes its slot and is its own parent. */
  lemma RemovedCurrentDirectory(n: nat)
    requires n >= 2
    ensures Shape(Create(InitNodes(n), 0, NAME_A, true, 0, DIR_MODE).0)
    ensures var u := Remove(Create(InitNodes(n), 0, NAME_A, true, 0, DIR_MODE).0, 0, NAME_A).0;
      && Tree(u) && !LiveDir(u, 1)
      && var v := Create(u, 1, NAME_B, true, 0, DIR_MODE).0;
      !Tree(v) && v[1].used && v[1].parent == 1
  {
    var s := InitNodes(n);
    InitIsTree(n);
    FreshRootIsEmpty(n, NAME_A);
    PlainName(97);
    var g := Target(0, NAME_A);
    assert Locate(s, 0, NAME_A) == g && Creates(s, g);
    CreatePlants(s, g, true, 0, DIR_MODE);
    CreateRefines(s, 0, NAME_A, true, 0, DIR_MODE);
    var t := Create(s, 0, NAME_A, true, 0, DIR_MODE).0;
    RemoveOnlyNode(t);
    RemoveRefines(t, 0, NAME_A);
    var u := Remove(t, 0, NAME_A).0;
    PlainName(98);
    assert Locate(u, 1, NAME_B) == Target(1, NAME_B) && Creates(u, Target(1, NAME_B));
    CreateNeedsLiveParent(u, 1, NAME_B, true, 0, DIR_MODE);
  }

  lemma PlainName(c: byte)
    requires c == 97 || c == 98
    ensures LastSlash([c]) == -1 && ValidName([c]) && Component([c])
  {
    assert [c][0] == c;
  }

  lemma RemoveOnlyNode(t: Nodes)
    requires Tree(t) && |t| >= 2 && t[1].used && t[1].parent == 0 && t[1].Title() == NAME_A
    requires forall i :: 2 <= i < |t| ==> !t[i].used
    ensures Remove(t, 0, NAME_A).0 == t[1 := t[1].(used := false)]
  {
    PlainName(97);
    RootTitle(t[0]);
    ComponentsOfName(NAME_A);
    WalkOne(t, 0, NAME_A);
    assert IsChild(t, 0, NAME_A, 1);
    assert Resolve(t, 0, NAME_A) == FindChild(t, 0, NAME_A) == 1;
  }

  // ---- names "." and ".." ------------------------------------------------------------------

  ghost predicate NoDotNames(t: Nodes) {
    forall i :: 0 < i < |t| && t[i].used ==> !IsDots(t[i].Title())
  }

  /** `is_valid_name` lets "." and ".." through, so `fs_mkdir_as` and `fs_touch_as` keep the
      tree free of them exactly when the last name given is neither, or nothing is created. */
  lemma CreateDotsExactly(t: Nodes, cwd: nat, path: cstring, isDir: bool, owner: uint16, mode: uint16)
    requires Tree(t) && LiveDir(t, cwd) && NoDotNames(t)
    ensures var g := Locate(t, cwd, path);
      NoDotNames(Create(t, cwd, path, isDir, owner, mode).0)
      <==> !(g.Target? && IsDots(g.leaf) && FirstFree(t) >= 0)
  {
    var g := Locate(t, cwd, path);
    var u := Create(t, cwd, path, isDir, owner, mode).0;
    if g.Target? && IsDots(g.leaf) {
      var e := FindChild(t, g.parent, g.leaf);
      RootTitle(t[0]);
      assert e == -1;
      var k := FirstFree(t);
      if k >= 0 { assert u[k].Title() == g.leaf; }
    }
  }

  lemma UnresolvedLeaf(t: Nodes, cwd: nat, path: cstring)
    requires Tree(t) && LiveDir(t, cwd) && Resolve(t, cwd, path) == -1
    requires Locate(t, cwd, path).Target? && GoodTarget(t, Locate(t, cwd, path))
    ensures !IsDots(Locate(t, cwd, path).leaf)
  {
    LocateAgreesWithResolve(t, cwd, path);
    var g := Locate(t, cwd, path);
    if g.parent != 0 { ParentFacts(t, g.parent); }
  }

  lemma StoreKeepsNoDots(t: Nodes, k: int, data: Option<seq<byte>>, size: nat)
    requires Shape(t) && NoDotNames(t) && -1 <= k < |t| && (data.Some? ==> size <= |data.value|)
    ensures NoDotNames(Store(t, k, data, size).0)
  {
    var u := Store(t, k, data, size).0;
    assert forall i :: 0 <= i < |t| ==> u[i].used == t[i].used && u[i].name == t[i].name;
  }

  /** `fs_write_file` resolves first and so never creates such a name. */
  lemma WriteKeepsNoDots(t: Nodes, cwd: nat, path: cstring, data: Option<seq<byte>>, size: nat)
    requires Tree(t) && LiveDir(t, cwd) && NoDotNames(t) && (data.Some? ==> size <= |data.value|)
    ensures NoDotNames(Write(t, cwd, path, data, size).0)
  {
    WriteIs(t, cwd, path, data, size);
    var k, g := Resolve(t, cwd, path), Locate(t, cwd, path);
    if k >= 0 {
      StoreKeepsNoDots(t, k, data, size);
    } else if Creates(t, g) {
      UnresolvedLeaf(t, cwd, path);
      CreateDotsExactly(t, cwd, path, false, 0, FILE_MODE);
      StoreKeepsNoDots(CreateAt(t, g, false, 0, FILE_MODE).0, FirstFree(t), data, size);
    }
  }

  /** In such a tree printing a node and resolving the text gives the node back, from any
      directory. */
  lemma NoDotsRoundTrip(t: Nodes, i: nat, cwd: nat)
    requires Tree(t) && NoDotNames(t) && Live(t, i) && cwd < |t|
    ensures Resolve(t, cwd, PathText(PathOf(t, i))) == i
  {
    NoDotsOnPath(t, i);
    PrintThenResolve(t, i, cwd);
  }

  /** A mkdir or touch whose path does not end in "." or "..". */
  predicate PlainLeaf(op: Op) {
    match op
    case Mkdir(_, path, _, _) => !IsDots(path[LastSlash(path) + 1..])
    case Touch(_, path, _, _) => !IsDots(path[LastSlash(path) + 1..])
    case _ => true
  }

  lemma LeafOf(t: Nodes, cwd: nat, path: cstring)
    requires InRange(t) && cwd < |t| && Locate(t, cwd, path).Target?
    ensures Locate(t, cwd, path).leaf == path[LastSlash(path) + 1..]
  {
    assert path[0..] == path;
  }

  lemma ApplyKeepsNoDots(t: Nodes, op: Op)
    requires Tree(t) && Ready(t, op) && NoDotNames(t) && PlainLeaf(op)
    ensures NoDotNames(Apply(t, op))
  {
    match op
    case Mkdir(cwd, path, owner, mode) =>
      if Locate(t, cwd, path).Target? { LeafOf(t, cwd, path); }
      CreateDotsExactly(t, cwd, path, true, owner, mode);
    case Touch(cwd, path, owner, mode) =>
      if Locate(t, cwd, path).Target? { LeafOf(t, cwd, path); }
      CreateDotsExactly(t, cwd, path, false, owner, mode);
    case WriteFile(cwd, path, data, size) => WriteKeepsNoDots(t, cwd, path, data, size);
    case RemoveAt(_, _) =>
    case Chown(_, _) =>
    case Chmod(_, _) =>
    case Reset =>
  }

  lemma {:induction false} RunKeepsNoDots(t: Nodes, ops: seq<Op>)
    requires Tree(t) && AllReady(t, ops) && NoDotNames(t)
    requires forall k :: 0 <= k < |ops| ==> PlainLeaf(ops[k])
    ensures NoDotNames(Run(t, ops))
    decreases |ops|
  {
    if ops != [] {
      ApplyKeepsTree(t, ops[0]);
      ApplyKeepsNoDots(t, ops[0]);
      RunKeepsNoDots(Apply(t, ops[0]), ops[1..]);
    }
  }

  /** On every run from `fs_init` in which no mkdir or touch is given a last name "." or "..",
      every live node's printed path resolves to it, from any slot. */
  lemma EveryRunPrints(n: nat, ops: seq<Op>, i: nat, cwd: nat)
    requires n >= 1 && AllReady(InitNodes(n), ops) && cwd < n
    requires forall k :: 0 <= k < |ops| ==> PlainLeaf(ops[k])
    ensures Tree(InitNodes(n))
    ensures var t := Run(InitNodes(n), ops);
      Tree(t) && (Live(t, i) ==> Resolve(t, cwd, PathText(PathOf(t, i))) == i)
  {
    InitIsTree(n);
    RunKeepsTree(InitNodes(n), ops);
    RunKeepsNoDots(InitNodes(n), ops);
    var t := Run(InitNodes(n), ops);
    if Live(t, i) { NoDotsRoundTrip(t, i, cwd); }
  }

  lemma {:induction false} NoDotsOnPath(t: Nodes, i: nat)
    requires Tree(t) && NoDotNames(t) && Live(t, i)
    ensures NoDots(PathOf(t, i))
    decreases Depths(t)[i]
  {
    if i != 0 {
      ParentFacts(t, i);
      NoDotsOnPath(t, t[i].parent);
    }
  }

  /** A concrete failure: `mkdir ".."` in the root of a fresh file system makes node 1, which
      prints as "/.."; that text resolves to the root. */
  lemma MkdirDotDot(n: nat)
    requires n >= 2
    ensures var t := Create(InitNodes(n), 0, DOTDOT, true, 0, DIR_MODE).0;
      && Tree(t) && Live(t, 1) && !NoDots(PathOf(t, 1))
      && Resolve(t, 0, PathText(PathOf(t, 1))) != 1
  {
    var s := InitNodes(n);
    InitIsTree(n);
    FreshRootIsEmpty(n, DOTDOT);
    DotDotHasNoSlash();
    var g := Target(0, DOTDOT);
    assert Locate(s, 0, DOTDOT) == g && Creates(s, g);
    CreatePlants(s, g, true, 0, DIR_MODE);
    var t := CreateAt(s, g, true, 0, DIR_MODE).0;
    PlantRefines(s, t, 1, 0, DOTDOT);
    assert PathOf(t, 1)[|PathOf(t, 1)| - 1] == DOTDOT;
    PrintThenResolve(t, 1, 0);
  }

  lemma DotDotHasNoSlash()
    ensures LastSlash(DOTDOT) == -1 && ValidName(DOTDOT)
  {
  }

  lemma FreshRootIsEmpty(n: nat, c: Name)
    requires n >= 2 && c != [SLASH]
    ensures FindChild(InitNodes(n), 0, c) == -1 && FirstFree(InitNodes(n)) == 1
  {
    var s := InitNodes(n);
    assert s[0] == RootNode();
    RootTitle(s[0]);
  }
}
