/** What the file operations come to, said with the numbers of kernel/fs.c and without the
    functions that describe their steps: when each succeeds, and what it leaves. */
module FileLaws {
  import opened Bytes
  import opened Paths
  import opened Table
  import opened NodeTree
  import opened PathMap
  import opened Refinement

  // ---- resolving ---------------------------------------------------------------------------

  /** What a path text means, piece by piece; `ResolveComposes` puts the pieces together. */
  lemma ResolveMeans(t: Nodes, cwd: nat, q: seq<byte>)
    requires Tree(t) && Live(t, cwd)
    ensures Resolve(t, cwd, []) == cwd && Resolve(t, cwd, [46]) == cwd && Resolve(t, cwd, [47]) == 0
    ensures Resolve(t, cwd, [46, 46]) == if cwd == 0 then 0 else t[cwd].parent
    ensures Resolve(t, cwd, [47] + q) == Resolve(t, 0, q)
  {
    ResolvesName(t, cwd, DOT);
    ResolvesName(t, cwd, DOTDOT);
    assert Components([47]) == Components([]);
    assert ([47] + q)[1..] == q;
  }

  /** A name leads to the child of that name, and nowhere when there is none. */
  lemma NameMeans(t: Nodes, cwd: nat, c: Name)
    requires Tree(t) && Live(t, cwd)
    requires c != [] && 47 !in c && c != [46] && c != [46, 46]
    ensures var r := Resolve(t, cwd, c);
      && (r == -1 || HasName(t, cwd, c, r))
      && (r == -1 ==> forall i :: !HasName(t, cwd, c, i))
  {
    ResolvesName(t, cwd, c);
    forall i | HasName(t, cwd, c, i) ensures IsChild(t, cwd, c, i) {
    }
  }

  lemma ResolvesName(t: Nodes, cwd: nat, c: Name)
    requires Tree(t) && Live(t, cwd) && Component(c)
    ensures Resolve(t, cwd, c) == Descend(t, cwd, c)
  {
    ComponentsOfName(c);
    WalkOne(t, cwd, c);
  }

  // ---- where a new entry goes --------------------------------------------------------------

  lemma {:induction false} LastSlashAt(head: seq<byte>, leaf: seq<byte>)
    requires 47 !in leaf
    ensures LastSlash(head + [47] + leaf) == |head| && LastSlash(leaf) == -1
    decreases |leaf|
  {
    var s := head + [47] + leaf;
    if leaf == [] {
      assert s[|s| - 1] == 47;
    } else {
      var rest := leaf[..|leaf| - 1];
      assert s[..|s| - 1] == head + [47] + rest;
      assert s[|s| - 1] == leaf[|leaf| - 1] && leaf[|leaf| - 1] in leaf;
      assert forall x :: x in rest ==> x in leaf;
      LastSlashAt(head, rest);
    }
  }

  predicate NameFits(leaf: Name) {
    1 <= |leaf| <= 31
  }

  /** `head/leaf` goes into the directory that `head` leads to: exactly when it leads to one, is
      at most 127 characters long, and the name has 1 to 31. */
  lemma TargetBehindSlash(t: Nodes, cwd: nat, head: cstring, leaf: cstring)
    requires InRange(t) && cwd < |t| && head != [] && 47 !in leaf
    ensures var d := Resolve(t, cwd, head);
      Locate(t, cwd, head + [47] + leaf)
      == if |head| <= 127 && d >= 0 && t[d].isDir && NameFits(leaf) then Target(d, leaf) else NoTarget
  {
    LastSlashAt(head, leaf);
    var s: cstring := head + [47] + leaf;
    assert s[..|head|] == head && s[|head| + 1..] == leaf;
  }

  /** `/leaf` goes into the root, and a bare name into the current directory as it is. */
  lemma TargetOfName(t: Nodes, cwd: nat, leaf: cstring)
    requires Tree(t) && cwd < |t| && 47 !in leaf
    ensures Locate(t, cwd, [47] + leaf) == if NameFits(leaf) then Target(0, leaf) else NoTarget
    ensures Locate(t, cwd, leaf) == if NameFits(leaf) then Target(cwd, leaf) else NoTarget
  {
    LastSlashAt([], leaf);
    var s: cstring := [47] + leaf;
    assert [] + [47] + leaf == s && s[..0] == [] && s[1..] == leaf;
    assert RootOk(t[0]);
  }

  // ---- creating ----------------------------------------------------------------------------

  /** Slot `k`, the first free one behind the root, has become an empty node; no other changed. */
  ghost predicate Added(t: Nodes, u: Nodes, k: nat, isDir: bool, parent: int, leaf: Name, owner: uint16, mode: uint16) {
    && 1 <= k < |t| == |u| && !t[k].used && (forall i :: 1 <= i < k ==> t[i].used)
    && (forall i :: 0 <= i < |t| && i != k ==> u[i] == t[i])
    && u[k].used && u[k].isDir == isDir && u[k].parent == parent && u[k].Title() == leaf
    && u[k].owner == owner && u[k].mode == mode && u[k].size == 0
    && Reused(t[k].name, t[k].data, u[k].name, u[k].data, leaf)
  }

  /** The buffers of a reused slot: the name and its NUL over the old name, a NUL over the first
      byte of the old data, and the rest as it was. */
  predicate Reused(oldName: seq<byte>, oldData: seq<byte>, name: seq<byte>, data: seq<byte>, leaf: Name) {
    && |leaf| < |oldName| && name == leaf + [0] + oldName[|leaf| + 1..]
    && oldData != [] && data == oldData[0 := 0]
  }

  ghost predicate HasName(t: Nodes, parent: int, leaf: Name, i: int) {
    Live(t, i) && t[i].parent == parent && t[i].Title() == leaf
  }

  /** The outcome of `fs_mkdir_as` and `fs_touch_as` for a found target. */
  ghost predicate Created(t: Nodes, u: Nodes, rc: int, g: Target, isDir: bool, owner: uint16, mode: uint16) {
    match g
    case NoTarget => rc == -1 && u == t
    case Target(parent, leaf) =>
      if exists i :: HasName(t, parent, leaf, i) then
        u == t && forall i :: HasName(t, parent, leaf, i) ==> rc == if t[i].isDir == isDir then 0 else -1
      else if exists k :: 1 <= k < |t| && !t[k].used then
        rc == 0 && exists k: nat :: Added(t, u, k, isDir, parent, leaf, owner, mode % 512)
      else rc == -1 && u == t
  }

  /** A name that is there succeeds for the same kind only; one that is not takes the first free
      slot, with the owner given and the nine mode bits, and fails only when there is none. */
  lemma CreateExactly(t: Nodes, cwd: nat, path: cstring, isDir: bool, owner: uint16, mode: uint16)
    requires Tree(t) && LiveDir(t, cwd)
    ensures var (u, rc) := Create(t, cwd, path, isDir, owner, mode);
      Created(t, u, rc, Locate(t, cwd, path), isDir, owner, mode)
  {
    var g := Locate(t, cwd, path);
    LocateLiveDir(t, cwd, path);
    if g.Target? { CreatedAt(t, g, isDir, owner, mode); }
  }

  /** A new name of 1 to 31 characters in an existing directory, reached by a text of at most 127,
      is made whenever a slot is free. */
  lemma NewNameSucceeds(t: Nodes, cwd: nat, head: cstring, leaf: cstring, isDir: bool, owner: uint16, mode: uint16)
    requires Tree(t) && LiveDir(t, cwd) && 1 <= |head| <= 127 && 1 <= |leaf| <= 31 && 47 !in leaf
    requires var d := Resolve(t, cwd, head); LiveDir(t, d) && forall i :: !HasName(t, d, leaf, i)
    requires exists k :: 1 <= k < |t| && !t[k].used
    ensures Create(t, cwd, head + [47] + leaf, isDir, owner, mode).1 == 0
  {
    TargetBehindSlash(t, cwd, head, leaf);
    CreateExactly(t, cwd, head + [47] + leaf, isDir, owner, mode);
  }

  lemma CreatedAt(t: Nodes, g: Target, isDir: bool, owner: uint16, mode: uint16)
    requires Tree(t) && GoodTarget(t, g) && g.Target?
    ensures var (u, rc) := CreateAt(t, g, isDir, owner, mode); Created(t, u, rc, g, isDir, owner, mode)
  {
    var (u, rc) := CreateAt(t, g, isDir, owner, mode);
    var e := FindChild(t, g.parent, g.leaf);
    forall i | HasName(t, g.parent, g.leaf, i) ensures i == e {
      assert IsChild(t, g.parent, g.leaf, i) && e >= 0;
      OnlyName(t, g.parent, g.leaf, i, e);
    }
    if e < 0 && FirstFree(t) >= 0 { BuffersOf(t[FirstFree(t)], isDir, g.parent, owner, mode, g.leaf); }
    if e >= 0 {
      assert HasName(t, g.parent, g.leaf, e);
    } else {
      var k := FirstFree(t);
      if k >= 0 { assert Added(t, u, k, isDir, g.parent, g.leaf, owner, mode % 512); }
    }
  }

  lemma BuffersOf(n: Node, isDir: bool, parent: int, owner: uint16, mode: uint16, leaf: cstring)
    requires Buffers(n) && 1 <= |leaf| <= MAX_NAME
    ensures var m := NewNode(n, isDir, parent, owner, mode, leaf); Reused(n.name, n.data, m.name, m.data, leaf)
  {
    var m := NewNode(n, isDir, parent, owner, mode, leaf);
    assert m.name == leaf + [0] + n.name[|leaf| + 1..];
  }

  lemma OnlyName(t: Nodes, parent: int, leaf: Name, i: int, j: int)
    requires Tree(t) && LiveDir(t, parent) && ValidName(leaf)
    requires HasName(t, parent, leaf, i) && HasName(t, parent, leaf, j)
    ensures i == j
  {
    RootTitle(t[0]);
    assert leaf != [SLASH] by { assert leaf[0] != SLASH; }
    assert SiblingsOk(t, i, j);
  }

  // ---- writing -----------------------------------------------------------------------------

  /** What is written is what is read: all of it up to 4095 bytes, and the first 4095 of more. */
  lemma WrittenIsRead(t: Nodes, cwd: nat, path: cstring, d: seq<byte>, size: nat)
    requires Tree(t) && LiveDir(t, cwd) && size <= |d|
    requires Write(t, cwd, path, Some(d), size).1 == 0
    ensures var u := Write(t, cwd, path, Some(d), size).0;
      && Tree(u) && Live(u, cwd)
      && Get(Abs(u), PathOf(u, cwd), path) == Some(if size <= 4095 then d[..size] else d[..4095])
  {
    WriteThenRead(t, cwd, path, Some(d), size);
  }

  /** Slot `k` holds a file with these rights and this place, and no other slot changed. */
  ghost predicate Wrote(t: Nodes, u: Nodes, k: int, parent: int, leaf: Name, owner: int, mode: int, size: nat) {
    && 0 <= k < |t| == |u| && (forall i :: 0 <= i < |t| && i != k ==> u[i] == t[i])
    && u[k].used && !u[k].isDir && u[k].parent == parent && u[k].Title() == leaf
    && u[k].owner == owner && u[k].mode == mode && u[k].size == (if size <= 4095 then size else 4095)
  }

  ghost predicate IsFirstFree(t: Nodes, k: int) {
    1 <= k < |t| && !t[k].used && forall i :: 1 <= i < k ==> t[i].used
  }

  /** The outcome of `fs_write_file`: a path that leads to a file keeps its owner and mode, one
      that leads nowhere makes a file of owner 0 and mode 0644 in the first free slot; a directory,
      a path without a target and a full table are refused. */
  ghost predicate WriteOutcome(t: Nodes, u: Nodes, rc: int, k: int, g: Target, size: nat)
    requires -1 <= k < |t|
  {
    if k >= 0 then
      if t[k].isDir then rc == -1 && u == t
      else rc == 0 && Wrote(t, u, k, t[k].parent, t[k].Title(), t[k].owner, t[k].mode, size)
    else if g.Target? && exists j :: IsFirstFree(t, j) then
      rc == 0 && exists j :: IsFirstFree(t, j) && Wrote(t, u, j, g.parent, g.leaf, 0, 420, size)
    else rc == -1 && u == t
  }

  lemma FreeSlots(t: Nodes)
    requires |t| >= 1
    ensures forall j :: IsFirstFree(t, j) <==> j == FirstFree(t) && j >= 0
  {
  }

  lemma NewAdded(t: Nodes, g: Target)
    requires Tree(t) && GoodTarget(t, g) && Creates(t, g)
    ensures var u := CreateAt(t, g, false, 0, FILE_MODE).0;
      Tree(u) && Added(t, u, FirstFree(t), false, g.parent, g.leaf, 0, 420)
  {
    CreatePlants(t, g, false, 0, FILE_MODE);
    BuffersOf(t[FirstFree(t)], false, g.parent, 0, FILE_MODE, g.leaf);
    PlantRefines(t, CreateAt(t, g, false, 0, FILE_MODE).0, FirstFree(t), g.parent, g.leaf);
  }

  lemma NewWrote(t: Nodes, g: Target, data: Option<seq<byte>>, size: nat)
    requires Tree(t) && GoodTarget(t, g) && Creates(t, g) && (data.Some? ==> size <= |data.value|)
    ensures Shape(CreateAt(t, g, false, 0, FILE_MODE).0)
    ensures var (u, rc, _) := Store(CreateAt(t, g, false, 0, FILE_MODE).0, FirstFree(t), data, size);
      rc == 0 && Wrote(t, u, FirstFree(t), g.parent, g.leaf, 0, 420, size)
  {
    NewAdded(t, g);
    StoreWrote(CreateAt(t, g, false, 0, FILE_MODE).0, FirstFree(t), data, size);
  }

  lemma NewOutcome(t: Nodes, g: Target, data: Option<seq<byte>>, size: nat)
    requires Tree(t) && GoodTarget(t, g) && Creates(t, g) && (data.Some? ==> size <= |data.value|)
    ensures Shape(CreateAt(t, g, false, 0, FILE_MODE).0)
    ensures var (u, rc, _) := Store(CreateAt(t, g, false, 0, FILE_MODE).0, FirstFree(t), data, size);
      WriteOutcome(t, u, rc, -1, g, size)
  {
    NewWrote(t, g, data, size);
    assert IsFirstFree(t, FirstFree(t));
  }

  lemma WriteExactly(t: Nodes, cwd: nat, path: cstring, data: Option<seq<byte>>, size: nat)
    requires Tree(t) && LiveDir(t, cwd) && (data.Some? ==> size <= |data.value|)
    ensures var (u, rc, _) := Write(t, cwd, path, data, size);
      WriteOutcome(t, u, rc, Resolve(t, cwd, path), Locate(t, cwd, path), size)
  {
    WriteIs(t, cwd, path, data, size);
    FreeSlots(t);
    var k, g := Resolve(t, cwd, path), Locate(t, cwd, path);
    if k >= 0 {
      ResolveLive(t, cwd, path);
      StoreWrote(t, k, data, size);
    } else {
      LocateLiveDir(t, cwd, path);
      if Creates(t, g) { NewOutcome(t, g, data, size); }
    }
  }

  lemma StoreWrote(t: Nodes, k: nat, data: Option<seq<byte>>, size: nat)
    requires Tree(t) && Live(t, k) && (data.Some? ==> size <= |data.value|)
    ensures var (u, rc, _) := Store(t, k, data, size);
      if t[k].isDir then rc == -1 && u == t
      else rc == 0 && Wrote(t, u, k, t[k].parent, t[k].Title(), t[k].owner, t[k].mode, size)
  {
  }

  /** A write without data keeps the bytes of the slot, whatever they are, and sets the size. */
  lemma NullKeepsBytes(t: Nodes, cwd: nat, path: cstring, size: nat)
    requires Tree(t) && LiveDir(t, cwd) && Write(t, cwd, path, None, size).1 == 0
    ensures var u, k := Write(t, cwd, path, None, size).0, Resolve(t, cwd, path);
      var slot := if k >= 0 then k else FirstFree(t);
      && Tree(u) && Live(u, cwd) && 0 <= slot < |t| && |t[slot].data| == 4096
      && var bytes := if k >= 0 then t[slot].data else t[slot].data[0 := 0];
      Get(Abs(u), PathOf(u, cwd), path) == Some(if size <= 4095 then bytes[..size] else bytes[..4095])
  {
    WriteThenRead(t, cwd, path, None, size);
    WriteIs(t, cwd, path, None, size);
  }

  // ---- reading, removing, changing rights --------------------------------------------------

  /** A removal succeeds exactly for a node other than the root that is no node's parent; then
      that slot is free and every other slot is as it was. */
  lemma RemoveExactly(t: Nodes, cwd: nat, path: cstring)
    requires Tree(t) && Live(t, cwd)
    ensures var (u, rc) := Remove(t, cwd, path);
      var k := Resolve(t, cwd, path);
      if k > 0 && (forall i :: Live(t, i) ==> t[i].parent != k) then
        rc == 0 && |u| == |t| && !u[k].used && forall i :: 0 <= i < |t| && i != k ==> u[i] == t[i]
      else rc == -1 && u == t
  {
    ResolveLive(t, cwd, path);
    var k := Resolve(t, cwd, path);
    if k > 0 {
      HasChildIsNonEmpty(t, k);
      assert HasChild(t, k) <==> exists i :: Live(t, i) && t[i].parent == k;
    }
  }

  /** Changing rights succeeds exactly for a live slot, and changes that one field of it; a mode
      keeps its nine low bits. */
  lemma RightsExactly(t: Nodes, node: int, owner: uint16, mode: uint16)
    ensures var (u, rc) := SetOwner(t, node, owner);
      if 0 <= node < |t| && t[node].used then rc == 0 && u == t[node := t[node].(owner := owner)]
      else rc == -1 && u == t
    ensures var (u, rc) := SetMode(t, node, mode);
      if 0 <= node < |t| && t[node].used then rc == 0 && u == t[node := t[node].(mode := mode % 512)]
      else rc == -1 && u == t
  {
  }
}
