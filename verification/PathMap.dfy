/** The file system as its users see it: a finite map from paths to entries, with the
    operations defined on that map alone. */
module PathMap {
  import opened Bytes
  import opened Paths
  import opened Table

  datatype Entry =
    | Dir(owner: uint16, mode: uint16)
    | File(owner: uint16, mode: uint16, content: seq<byte>)

  type Files = map<Path, Entry>

  function Up(cur: Path): Path {
    if cur == [] then [] else cur[..|cur| - 1]
  }

  function Step(m: Files, cur: Path, c: Name): Option<Path> {
    if c == DOT then Some(cur)
    else if c == DOTDOT then Some(Up(cur))
    else if cur + [c] in m then Some(cur + [c])
    else None
  }

  function Follow(m: Files, cur: Path, cs: Path): Option<Path>
    decreases |cs|
  {
    if cs == [] then Some(cur)
    else
      match Step(m, cur, cs[0])
      case None => None
      case Some(next) => Follow(m, next, cs[1..])
  }

  function From(cwd: Path, path: seq<byte>): Path {
    if Absolute(path) then [] else cwd
  }

  function Find(m: Files, cwd: Path, path: seq<byte>): Option<Path> {
    Follow(m, From(cwd, path), Components(path))
  }

  /** The text of the directory of a path with a slash in it: "/" when that slash is the first. */
  function HeadText(path: seq<byte>): seq<byte>
    requires LastSlash(path) >= 0
  {
    if LastSlash(path) == 0 then [SLASH] else path[..LastSlash(path)]
  }

  /** Where a new entry called `path` would go: its directory and its last name. */
  function Place(m: Files, cwd: Path, path: seq<byte>): Option<(Path, Name)> {
    var slash := LastSlash(path);
    var leaf := path[slash + 1..];
    if !ValidName(leaf) || slash >= PARENT_BUF then None
    else if slash < 0 then Some((cwd, leaf))
    else
      match Find(m, cwd, HeadText(path))
      case None => None
      case Some(dir) => if dir in m && m[dir].Dir? then Some((dir, leaf)) else None
  }

  function Fresh(isDir: bool, owner: uint16, mode: uint16): Entry {
    if isDir then Dir(owner, mode % 512) else File(owner, mode % 512, [])
  }

  function MakeAt(m: Files, capacity: nat, place: Option<(Path, Name)>,
                  isDir: bool, owner: uint16, mode: uint16): (Files, int)
  {
    match place
    case None => (m, -1)
    case Some((dir, leaf)) =>
      var p := dir + [leaf];
      if p in m then (m, if m[p].Dir? == isDir then 0 else -1)
      else if |m| >= capacity then (m, -1)
      else (m[p := Fresh(isDir, owner, mode)], 0)
  }

  /** Make a directory or an empty file; an existing entry of the same kind is success. */
  function Make(m: Files, capacity: nat, cwd: Path, path: seq<byte>,
                isDir: bool, owner: uint16, mode: uint16): (Files, int)
  {
    MakeAt(m, capacity, Place(m, cwd, path), isDir, owner, mode)
  }

  function WithContent(e: Entry, content: seq<byte>): Entry {
    match e
    case Dir(_, _) => e
    case File(o, a, _) => File(o, a, content)
  }

  function PutAt(m: Files, capacity: nat, found: Option<Path>, place: Option<(Path, Name)>,
                 content: seq<byte>): (Files, int)
  {
    match found
    case Some(p) =>
      if p !in m || m[p].Dir? then (m, -1) else (m[p := WithContent(m[p], content)], 0)
    case None =>
      match place
      case None => (m, -1)
      case Some((dir, leaf)) =>
        if |m| >= capacity then (m, -1)
        else (m[dir + [leaf] := File(0, FILE_MODE, content)], 0)
  }

  /** Replace the content of a file, creating it when the path leads nowhere. */
  function Put(m: Files, capacity: nat, cwd: Path, path: seq<byte>, content: seq<byte>): (Files, int) {
    PutAt(m, capacity, Find(m, cwd, path), Place(m, cwd, path), content)
  }

  ghost predicate NonEmptyDir(m: Files, p: Path) {
    exists c :: p + [c] in m
  }

  /** Remove a file or an empty directory, never the root. */
  ghost function Drop(m: Files, cwd: Path, path: seq<byte>): (Files, int) {
    match Find(m, cwd, path)
    case None => (m, -1)
    case Some(p) => if p == [] || NonEmptyDir(m, p) then (m, -1) else (m - {p}, 0)
  }

  function Get(m: Files, cwd: Path, path: seq<byte>): Option<seq<byte>> {
    match Find(m, cwd, path)
    case None => None
    case Some(p) => if p in m && m[p].File? then Some(m[p].content) else None
  }

  // ---- laws --------------------------------------------------------------------------------

  /** A path that leads somewhere leads to the same place when entries are added. */
  lemma {:induction false} FollowMonotone(m: Files, n: Files, cur: Path, cs: Path)
    requires m.Keys <= n.Keys && Follow(m, cur, cs).Some?
    ensures Follow(n, cur, cs) == Follow(m, cur, cs)
    decreases |cs|
  {
    if cs != [] { FollowMonotone(m, n, Step(m, cur, cs[0]).value, cs[1..]); }
  }

  lemma {:induction false} FollowLast(m: Files, cur: Path, cs: Path, c: Name)
    requires Follow(m, cur, cs).Some?
    ensures Follow(m, cur, cs + [c]) == Step(m, Follow(m, cur, cs).value, c)
    decreases |cs|
  {
    if cs == [] {
      assert [] + [c] == [c];
    } else {
      assert (cs + [c])[1..] == cs[1..] + [c];
      FollowLast(m, Step(m, cur, cs[0]).value, cs[1..], c);
    }
  }

  lemma HeadAndLeaf(path: seq<byte>)
    requires LastSlash(path) >= 0 && ValidName(path[LastSlash(path) + 1..])
    ensures Components(path) == Components(HeadText(path)) + [path[LastSlash(path) + 1..]]
    ensures Absolute(HeadText(path)) == Absolute(path)
  {
    var slash := LastSlash(path);
    var head, leaf := path[..slash], path[slash + 1..];
    assert path == head + [SLASH] + leaf;
    ComponentsJoin(head, leaf);
    ComponentsOfName(leaf);
    if slash == 0 { assert Components([SLASH]) == Components([]); }
  }

  /** A place is where all but the last component lead. */
  lemma PlaceSplits(m: Files, cwd: Path, path: seq<byte>) returns (cs: Path)
    requires Place(m, cwd, path).Some?
    ensures var (dir, leaf) := Place(m, cwd, path).value;
      Components(path) == cs + [leaf] && Follow(m, From(cwd, path), cs) == Some(dir)
  {
    if LastSlash(path) < 0 {
      assert path[0..] == path;
      ComponentsOfName(path);
      cs := [];
    } else {
      HeadAndLeaf(path);
      cs := Components(HeadText(path));
    }
  }

  /** Adding the missing last component of a path makes the path lead to it. */
  lemma LastStep(m: Files, n: Files, start: Path, cs: Path, dir: Path, leaf: Name)
    requires m.Keys <= n.Keys && dir + [leaf] in n
    requires Follow(m, start, cs) == Some(dir) && Follow(m, start, cs + [leaf]) == None
    ensures Follow(n, start, cs + [leaf]) == Some(dir + [leaf])
  {
    FollowLast(m, start, cs, leaf);
    FollowMonotone(m, n, start, cs);
    FollowLast(n, start, cs, leaf);
  }

  /** A successful `Put` is what `Get` finds. */
  lemma PutThenGet(m: Files, capacity: nat, cwd: Path, path: seq<byte>, content: seq<byte>)
    requires Put(m, capacity, cwd, path, content).1 == 0
    ensures Get(Put(m, capacity, cwd, path, content).0, cwd, path) == Some(content)
  {
    var found, place := Find(m, cwd, path), Place(m, cwd, path);
    var n := PutAt(m, capacity, found, place, content).0;
    if found.Some? {
      FollowMonotone(m, n, From(cwd, path), Components(path));
    } else {
      var cs := PlaceSplits(m, cwd, path);
      LastStep(m, n, From(cwd, path), cs, place.value.0, place.value.1);
    }
  }

  /** After a successful `Drop` nothing can be read at the path. */
  lemma DropThenGet(m: Files, cwd: Path, path: seq<byte>)
    requires Drop(m, cwd, path).1 == 0
    ensures Get(Drop(m, cwd, path).0, cwd, path) == None
  {
    var n := Drop(m, cwd, path).0;
    if Find(n, cwd, path).Some? {
      FollowMonotone(n, m, From(cwd, path), Components(path));
    }
  }
}
