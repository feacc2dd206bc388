/** The node table of kernel/fs.c as a value: one record per slot, the lookups and updates
    the C functions perform, and the invariant that makes the table a tree. */
module Table {
  import opened Bytes
  import opened Paths

  const NAME_BUF := MAX_NAME + 1
  const FILE_BUF := 4096
  const DIR_MODE: uint16 := 493   // 0755
  const FILE_MODE: uint16 := 420  // 0644

  /** Length of the `parent_path` buffer of `resolve_parent_and_leaf`. */
  const PARENT_BUF := 128

  type uint16 = x: int | 0 <= x < 0x1_0000

  /** `struct fs_node`: `name` and `data` are the raw buffers, stale bytes included. */
  datatype Node = Node(
    used: bool, isDir: bool, parent: int, owner: uint16, mode: uint16,
    name: seq<byte>, data: seq<byte>, size: nat)
  {
    function Title(): cstring { CStr(name) }
    function Content(): seq<byte> requires size <= |data| { data[..size] }
  }

  type Nodes = seq<Node>

  function BlankNode(): Node {
    Node(false, false, 0, 0, 0, Zeros(NAME_BUF), Zeros(FILE_BUF), 0)
  }

  function RootNode(): Node {
    BlankNode().(used := true, isDir := true, mode := DIR_MODE,
                 name := Splice(Zeros(NAME_BUF), 0, [SLASH, NUL]))
  }

  /** The table `fs_init` builds. */
  function InitNodes(n: nat): (t: Nodes)
    requires n >= 1
    ensures |t| == n
  {
    [RootNode()] + seq(n - 1, _ => BlankNode())
  }

  predicate Live(t: Nodes, i: int) {
    0 <= i < |t| && t[i].used
  }

  predicate LiveDir(t: Nodes, i: int) {
    Live(t, i) && t[i].isDir
  }

  // ---- lookups ------------------------------------------------------------------------

  predicate IsChild(t: Nodes, parent: int, name: Name, i: int) {
    Live(t, i) && t[i].parent == parent && t[i].Title() == name
  }

  function FindFrom(t: Nodes, parent: int, name: Name, i: nat): (r: int)
    requires i <= |t|
    ensures r == -1 || i <= r < |t|
    ensures r >= 0 ==> IsChild(t, parent, name, r)
    ensures forall j :: i <= j < (if r < 0 then |t| else r) ==> !IsChild(t, parent, name, j)
    decreases |t| - i
  {
    if i == |t| then -1
    else if IsChild(t, parent, name, i) then i
    else FindFrom(t, parent, name, i + 1)
  }

  /** The first live slot with that parent and name, or -1. */
  function FindChild(t: Nodes, parent: int, name: Name): (r: int)
    ensures r == -1 || IsChild(t, parent, name, r)
    ensures r == -1 ==> forall j :: 0 <= j < |t| ==> !IsChild(t, parent, name, j)
  {
    FindFrom(t, parent, name, 0)
  }

  function FreeFrom(t: Nodes, i: nat): (r: int)
    requires i <= |t|
    ensures r == -1 || (i <= r < |t| && !t[r].used)
    ensures forall j :: i <= j < (if r < 0 then |t| else r) ==> t[j].used
    decreases |t| - i
  {
    if i == |t| then -1 else if !t[i].used then i else FreeFrom(t, i + 1)
  }

  /** The slot `alloc_node` takes: the first free one after the root, or -1. */
  function FirstFree(t: Nodes): (r: int)
    requires |t| >= 1
    ensures r == -1 || (1 <= r < |t| && !t[r].used)
    ensures r == -1 ==> forall j :: 1 <= j < |t| ==> t[j].used
  {
    FreeFrom(t, 1)
  }

  /** One component of a walk; -1 is failure. */
  function Descend(t: Nodes, cur: int, c: Name): int
    requires 0 <= cur < |t|
  {
    if c == DOT then cur
    else if c == DOTDOT then (if cur != 0 then t[cur].parent else 0)
    else FindChild(t, cur, c)
  }

  predicate InRange(t: Nodes) {
    |t| >= 1 && forall i :: 0 <= i < |t| ==> 0 <= t[i].parent < |t|
  }

  function Walk(t: Nodes, cur: int, cs: Path): (r: int)
    requires InRange(t) && -1 <= cur < |t|
    ensures -1 <= r < |t|
    decreases |cs|
  {
    if cur < 0 || cs == [] then cur else Walk(t, Descend(t, cur, cs[0]), cs[1..])
  }

  function Start(cwd: int, path: seq<byte>): int {
    if Absolute(path) then 0 else cwd
  }

  /** What `fs_resolve` returns. */
  function Resolve(t: Nodes, cwd: int, path: seq<byte>): (r: int)
    requires InRange(t) && 0 <= cwd < |t|
    ensures -1 <= r < |t|
  {
    Walk(t, Start(cwd, path), Components(path))
  }

  datatype Target = NoTarget | Target(parent: int, leaf: cstring)

  /** The directory named by everything before the last slash. */
  function Head(t: Nodes, cwd: int, head: seq<byte>): (r: int)
    requires InRange(t) && 0 <= cwd < |t|
    ensures -1 <= r < |t|
  {
    if head == [] then 0 else Resolve(t, cwd, head)
  }

  function TargetIn(t: Nodes, parent: int, leaf: cstring): Target
    requires -1 <= parent < |t|
  {
    if parent < 0 || !t[parent].isDir || !ValidName(leaf) then NoTarget else Target(parent, leaf)
  }

  /** What `resolve_parent_and_leaf` stores, or `NoTarget` where it returns -1. Without a slash
      the current directory is taken as it is. */
  function Locate(t: Nodes, cwd: int, path: cstring): (r: Target)
    requires InRange(t) && 0 <= cwd < |t|
    ensures r.Target? ==> 0 <= r.parent < |t| && ValidName(r.leaf)
  {
    var slash := LastSlash(path);
    if slash < 0 then
      if ValidName(path) then Target(cwd, path) else NoTarget
    else if slash >= PARENT_BUF then NoTarget
    else TargetIn(t, Head(t, cwd, path[..slash]), path[slash + 1..])
  }

  // ---- updates ------------------------------------------------------------------------

  predicate Buffers(n: Node) {
    |n.name| == NAME_BUF && |n.data| == FILE_BUF
  }

  /** `alloc_node`, then the assignments of `fs_mkdir_as` or `fs_touch_as`. */
  function NewNode(n: Node, isDir: bool, parent: int, owner: uint16, mode: uint16, leaf: cstring): (r: Node)
    requires Buffers(n) && |leaf| <= MAX_NAME
    ensures Buffers(r) && r.Title() == leaf
  {
    CStrOfCopy(n.name[0 := NUL], leaf);
    Node(true, isDir, parent, owner, mode % 512,
         Splice(n.name[0 := NUL], 0, leaf + [NUL]), n.data[0 := NUL], 0)
  }

  /** `fs_mkdir_as` (isDir) and `fs_touch_as` (!isDir) once the target is known: new table
      and return value. */
  function CreateAt(t: Nodes, target: Target, isDir: bool, owner: uint16, mode: uint16): (r: (Nodes, int))
    requires Shape(t) && (target.Target? ==> ValidName(target.leaf))
    ensures |r.0| == |t|
  {
    if target.NoTarget? then (t, -1)
    else
      var existing := FindChild(t, target.parent, target.leaf);
      if existing >= 0 then (t, if t[existing].isDir == isDir then 0 else -1)
      else
        var k := FirstFree(t);
        if k < 0 then (t, -1)
        else (t[k := NewNode(t[k], isDir, target.parent, owner, mode, target.leaf)], 0)
  }

  function Create(t: Nodes, cwd: int, path: cstring, isDir: bool, owner: uint16, mode: uint16): (r: (Nodes, int))
    requires Shape(t) && 0 <= cwd < |t|
    ensures |r.0| == |t|
  {
    CreateAt(t, Locate(t, cwd, path), isDir, owner, mode)
  }

  function Capped(size: nat): (s: nat)
    ensures s <= size && s < FILE_BUF
  {
    if size >= FILE_BUF then FILE_BUF - 1 else size
  }

  /** The tail of `fs_write_file`; a null `data` pointer keeps the old bytes. */
  function Written(n: Node, data: Option<seq<byte>>, size: nat): (r: Node)
    requires Buffers(n) && (data.Some? ==> size <= |data.value|)
    ensures Buffers(r)
  {
    var k := Capped(size);
    var d := if data.Some? then Splice(n.data, 0, data.value[..k]) else n.data;
    n.(data := d[k := NUL], size := k)
  }

  /** The end of `fs_write_file`: the final table, the return value and the slot written. */
  function Store(t: Nodes, node: int, data: Option<seq<byte>>, size: nat): (r: (Nodes, int, int))
    requires Shape(t) && -1 <= node < |t| && (data.Some? ==> size <= |data.value|)
    ensures |r.0| == |t|
    ensures r.1 == 0 ==> 0 <= r.2 < |t| && Buffers(r.0[r.2]) && r.0[r.2].size == Capped(size)
  {
    if node < 0 || t[node].isDir then (t, -1, -1)
    else (t[node := Written(t[node], data, size)], 0, node)
  }

  /** `fs_write_file`: resolve, touch and resolve again when that fails, then store. */
  function Write(t: Nodes, cwd: int, path: cstring, data: Option<seq<byte>>, size: nat): (r: (Nodes, int, int))
    requires Shape(t) && 0 <= cwd < |t| && (data.Some? ==> size <= |data.value|)
    ensures |r.0| == |t|
    ensures r.1 == 0 ==> 0 <= r.2 < |t| && Buffers(r.0[r.2]) && r.0[r.2].size == Capped(size)
  {
    var first := Resolve(t, cwd, path);
    if first >= 0 then Store(t, first, data, size)
    else
      var (u, rc) := Create(t, cwd, path, false, 0, FILE_MODE);
      if rc != 0 then (u, -1, -1)
      else
        assert Shape(u) by { CreateBuffered(t, Locate(t, cwd, path), false, 0, FILE_MODE); }
        Store(u, Resolve(u, cwd, path), data, size)
  }

  predicate HasChild(t: Nodes, node: int) {
    exists i :: 0 <= i < |t| && t[i].used && t[i].parent == node
  }

  /** `fs_remove`. */
  function Remove(t: Nodes, cwd: int, path: cstring): (r: (Nodes, int))
    requires Shape(t) && 0 <= cwd < |t|
    ensures |r.0| == |t|
  {
    var node := Resolve(t, cwd, path);
    if node <= 0 || (t[node].isDir && HasChild(t, node)) then (t, -1)
    else (t[node := t[node].(used := false)], 0)
  }

  /** `fs_set_owner` and `fs_set_mode`. */
  function SetOwner(t: Nodes, node: int, owner: uint16): (r: (Nodes, int))
    ensures |r.0| == |t|
  {
    if Live(t, node) then (t[node := t[node].(owner := owner)], 0) else (t, -1)
  }

  function SetMode(t: Nodes, node: int, mode: uint16): (r: (Nodes, int))
    ensures |r.0| == |t|
  {
    if Live(t, node) then (t[node := t[node].(mode := mode % 512)], 0) else (t, -1)
  }

  // ---- the invariant --------------------------------------------------------------------

  /** What holds of every slot, used or not. */
  predicate NodeOk(n: Node) {
    && Buffers(n)
    && n.name[MAX_NAME] == NUL
    && n.size < FILE_BUF && n.data[n.size] == NUL
    && n.mode < 512
  }

  predicate Buffered(t: Nodes) {
    InRange(t) && forall i :: 0 <= i < |t| ==> NodeOk(t[i])
  }

  predicate RootOk(n: Node) {
    && n.used && n.isDir && n.parent == 0
    && Buffers(n) && n.name[0] == SLASH && n.name[1] == NUL
  }

  predicate Shape(t: Nodes) {
    Buffered(t) && RootOk(t[0])
  }

  /** A live non-root node has a valid name and a live directory as parent. */
  predicate LinkOk(t: Nodes, i: nat)
    requires i < |t|
  {
    t[i].used && i != 0 ==> LiveDir(t, t[i].parent) && ValidName(t[i].Title())
  }

  /** Two live non-root siblings have different names. */
  predicate SiblingsOk(t: Nodes, i: nat, j: nat)
    requires i < |t| && j < |t|
  {
    t[i].used && t[j].used && 0 < i && 0 < j && i != j && t[i].parent == t[j].parent
    ==> t[i].Title() != t[j].Title()
  }

  predicate RankOk(t: Nodes, d: seq<nat>, i: nat)
    requires i < |t| == |d|
  {
    t[i].used && i != 0 ==> 0 <= t[i].parent < |d| && d[i] == d[t[i].parent] + 1
  }

  /** `d` measures the distance to the root, so parent chains end there. */
  predicate Ranks(t: Nodes, d: seq<nat>) {
    |d| == |t| && (|t| > 0 ==> d[0] == 0) && forall i :: 0 <= i < |t| ==> RankOk(t, d, i)
  }

  /** A tree whose depths are `d`. */
  predicate TreeWith(t: Nodes, d: seq<nat>) {
    && Shape(t)
    && Ranks(t, d)
    && (forall i :: 0 <= i < |t| ==> LinkOk(t, i))
    && (forall i, j :: 0 <= i < |t| && 0 <= j < |t| ==> SiblingsOk(t, i, j))
  }

  ghost predicate Tree(t: Nodes) {
    exists d :: TreeWith(t, d)
  }

  lemma RootTitle(n: Node)
    requires RootOk(n)
    ensures n.Title() == [SLASH]
  {
  }

  lemma NewNodeOk(n: Node, isDir: bool, parent: int, owner: uint16, mode: uint16, leaf: cstring)
    requires NodeOk(n) && |leaf| <= MAX_NAME
    ensures NodeOk(NewNode(n, isDir, parent, owner, mode, leaf))
  {
  }

  lemma CreateBuffered(t: Nodes, target: Target, isDir: bool, owner: uint16, mode: uint16)
    requires Shape(t) && (target.Target? ==> ValidName(target.leaf) && 0 <= target.parent < |t|)
    ensures Shape(CreateAt(t, target, isDir, owner, mode).0)
  {
  }
}
