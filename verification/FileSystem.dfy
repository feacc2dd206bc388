/** kernel/fs.c: the global node table and the functions that search and update it in place. */
module FileSystemModule {
  import opened Bytes
  import opened Paths
  import opened Table
  import opened NodeTree
  import opened PathMap
  import opened Refinement
  import opened FileLaws
  import opened Listing
  import opened Runs
  import opened KString
  import opened Image

  class FileSystem {
    const nodes: array<Node>

    ghost predicate Valid()
      reads this, nodes
    {
      Tree(nodes[..])
    }

    constructor (capacity: nat)
      requires capacity >= 1
      ensures Valid() && fresh(nodes) && nodes[..] == InitNodes(capacity)
    {
      nodes := new Node[capacity](_ => BlankNode());
      new;
      Init();
    }

    /** `fs_init` */
    method Init()
      requires nodes.Length >= 1
      modifies nodes
      ensures nodes[..] == InitNodes(nodes.Length) && Valid()
    {
      for i := 0 to nodes.Length
        invariant forall k :: 0 <= k < i ==> nodes[k] == BlankNode()
      {
        nodes[i] := BlankNode();
      }
      nodes[0] := nodes[0].(used := true, isDir := true, parent := 0, owner := 0, mode := DIR_MODE);
      nodes[0] := nodes[0].(name := Splice(nodes[0].name, 0, [SLASH, NUL]));
      InitIsTree(nodes.Length);
      assert nodes[..] == InitNodes(nodes.Length);
    }

    /** `is_valid_name` */
    method IsValidName(name: cstring) returns (ok: bool)
      ensures ok <==> ValidName(name)
    {
      if name == [] { return false; }
      var i := 0;
      while i < |name|
        invariant i <= |name| && i <= MAX_NAME
        invariant forall k :: 0 <= k < i ==> name[k] != SLASH
      {
        if name[i] == SLASH { return false; }
        i := i + 1;
        if i > MAX_NAME { return false; }
      }
      return true;
    }

    /** `find_child` */
    method FindChild(parent: int, name: cstring) returns (r: int)
      requires Buffered(nodes[..])
      ensures r == Table.FindChild(nodes[..], parent, name)
    {
      var i := 0;
      while i < nodes.Length
        invariant i <= nodes.Length
        invariant FindFrom(nodes[..], parent, name, 0) == FindFrom(nodes[..], parent, name, i)
      {
        var n := nodes[i];
        if n.used && n.parent == parent {
          assert nodes[..][i] == n;
          TerminatedString(name);
          assert n.name[MAX_NAME] == NUL;
          var c := KStrcmp(n.name, name + [NUL]);
          if c == 0 { return i; }
        }
        i := i + 1;
      }
      return -1;
    }

    /** The first free slot, as `alloc_node` searches for it. */
    method FreeSlot() returns (k: int)
      requires nodes.Length >= 1
      ensures k == FirstFree(nodes[..])
    {
      var i := 1;
      while i < nodes.Length
        invariant 1 <= i <= nodes.Length
        invariant FreeFrom(nodes[..], 1) == FreeFrom(nodes[..], i)
      {
        if !nodes[i].used { return i; }
        i := i + 1;
      }
      return -1;
    }

    /** `fs_resolve`: the character loop computes the fold over the components. */
    method Resolve(cwd: nat, path: cstring) returns (r: int)
      requires Buffered(nodes[..]) && cwd < nodes.Length
      ensures r == Table.Resolve(nodes[..], cwd, path)
    {
      var current: int := if path != [] && path[0] == SLASH then 0 else cwd;
      var i, tokenLen := 0, 0;  // the token buffer holds path[i - tokenLen..i]
      ghost var t := nodes[..];
      ScanIsResolve(t, cwd, path);
      while true
        invariant tokenLen <= i <= |path| && tokenLen <= MAX_NAME && 0 <= current < nodes.Length
        invariant Scan(t, current, path, i - tokenLen, i) == Scan(t, Start(cwd, path), path, 0, 0)
        decreases |path| - i
      {
        if i == |path| || path[i] == SLASH {
          if tokenLen > 0 {
            var next := TakeComponent(current, Slice(path, i - tokenLen, i));
            if next < 0 { return -1; }
            current := next;
            tokenLen := 0;
          }
          if i == |path| { return current; }
        } else {
          if tokenLen >= MAX_NAME { return -1; }
          tokenLen := tokenLen + 1;
        }
        i := i + 1;
      }
    }

    /** What `fs_resolve` does with a complete token. */
    method TakeComponent(current: nat, token: cstring) returns (next: int)
      requires Buffered(nodes[..]) && current < nodes.Length
      ensures next == Descend(nodes[..], current, token) && -1 <= next < nodes.Length
    {
      if token == DOT { return current; }
      if token == DOTDOT { return if current != 0 then nodes[current].parent else current; }
      next := FindChild(current, token);
    }

    /** `resolve_parent_and_leaf`; `Table.NoTarget` is its -1. */
    method ResolveParentAndLeaf(cwd: nat, path: cstring) returns (g: Target)
      requires Buffered(nodes[..]) && cwd < nodes.Length
      ensures g == Locate(nodes[..], cwd, path)
    {
      if path == [] { return NoTarget; }
      var slash := -1;
      for i := 0 to |path|
        invariant -1 <= slash < i
        invariant slash == LastSlash(path[..i])
      {
        assert path[..i + 1][..i] == path[..i];
        if path[i] == SLASH { slash := i; }
      }
      assert path[..|path|] == path;
      if slash == -1 {
        var ok := IsValidName(path);
        return if ok then Target(cwd, path) else NoTarget;
      }
      if slash == |path| - 1 { return NoTarget; }
      var parent := 0;
      if slash > 0 {
        if slash >= PARENT_BUF { return NoTarget; }
        parent := Resolve(cwd, Slice(path, 0, slash));
      }
      if parent < 0 || !nodes[parent].isDir { return NoTarget; }
      var leaf := Slice(path, slash + 1, |path|);
      var ok := IsValidName(leaf);
      return if ok then Target(parent, leaf) else NoTarget;
    }

    /** `alloc_node` followed by the assignments its two callers make. */
    method CreateNode(k: nat, isDir: bool, parent: nat, owner: uint16, mode: uint16, leaf: cstring)
      requires Shape(nodes[..]) && k < nodes.Length && |leaf| <= MAX_NAME
      modifies nodes
      ensures nodes[..] == old(nodes[..])[k := NewNode(old(nodes[k]), isDir, parent, owner, mode, leaf)]
    {
      assert nodes[k] == nodes[..][k];
      ghost var n := nodes[k];
      nodes[k] := nodes[k].(used := true, isDir := false, parent := 0, owner := 0, mode := FILE_MODE,
                            size := 0, name := nodes[k].name[0 := NUL], data := nodes[k].data[0 := NUL]);
      nodes[k] := nodes[k].(isDir := isDir, parent := parent, owner := owner, mode := mode % 512);
      if !isDir {
        nodes[k] := nodes[k].(size := 0, data := nodes[k].data[0 := NUL]);
      }
      assert n.data[0 := NUL][0 := NUL] == n.data[0 := NUL];
      nodes[k] := nodes[k].(name := Splice(nodes[k].name, 0, leaf + [NUL]));
      assert nodes[k] == NewNode(n, isDir, parent, owner, mode, leaf);
    }

    /** `fs_mkdir_as` */
    method MkdirAs(cwd: nat, path: cstring, owner: uint16, mode: uint16) returns (rc: int)
      requires Valid() && LiveDir(nodes[..], cwd)
      modifies nodes
      ensures (nodes[..], rc) == Create(old(nodes[..]), cwd, path, true, owner, mode)
      ensures Does(old(nodes[..]), nodes[..], rc,
                   Make(Abs(old(nodes[..])), nodes.Length, PathOf(old(nodes[..]), cwd), path, true, owner, mode))
      ensures Created(old(nodes[..]), nodes[..], rc, Locate(old(nodes[..]), cwd, path), true, owner, mode)
      ensures Valid() && LiveDir(nodes[..], cwd)
    {
      CreateKeepsTree(nodes[..], cwd, path, true, owner, mode);
      rc := MkdirSteps(cwd, path, owner, mode);
    }

    /** Its statements, against the table function. */
    method MkdirSteps(cwd: nat, path: cstring, owner: uint16, mode: uint16) returns (rc: int)
      requires Shape(nodes[..]) && cwd < nodes.Length
      modifies nodes
      ensures (nodes[..], rc) == Create(old(nodes[..]), cwd, path, true, owner, mode)
    {
      var g := ResolveParentAndLeaf(cwd, path);
      if g.NoTarget? { return -1; }
      var existing := FindChild(g.parent, g.leaf);
      if existing >= 0 { return if nodes[existing].isDir then 0 else -1; }
      var node := FreeSlot();
      if node < 0 { return -1; }
      CreateNode(node, true, g.parent, owner, mode, g.leaf);
      return 0;
    }

    /** `fs_touch_as` */
    method TouchAs(cwd: nat, path: cstring, owner: uint16, mode: uint16) returns (rc: int)
      requires Valid() && LiveDir(nodes[..], cwd)
      modifies nodes
      ensures (nodes[..], rc) == Create(old(nodes[..]), cwd, path, false, owner, mode)
      ensures Does(old(nodes[..]), nodes[..], rc,
                   Make(Abs(old(nodes[..])), nodes.Length, PathOf(old(nodes[..]), cwd), path, false, owner, mode))
      ensures Created(old(nodes[..]), nodes[..], rc, Locate(old(nodes[..]), cwd, path), false, owner, mode)
      ensures Valid() && LiveDir(nodes[..], cwd)
    {
      CreateKeepsTree(nodes[..], cwd, path, false, owner, mode);
      rc := TouchSteps(cwd, path, owner, mode);
    }

    /** Its statements, against the table function. */
    method TouchSteps(cwd: nat, path: cstring, owner: uint16, mode: uint16) returns (rc: int)
      requires Shape(nodes[..]) && cwd < nodes.Length
      modifies nodes
      ensures (nodes[..], rc) == Create(old(nodes[..]), cwd, path, false, owner, mode)
    {
      var g := ResolveParentAndLeaf(cwd, path);
      if g.NoTarget? { return -1; }
      var existing := FindChild(g.parent, g.leaf);
      if existing >= 0 { return if nodes[existing].isDir then -1 else 0; }
      var node := FreeSlot();
      if node < 0 { return -1; }
      CreateNode(node, false, g.parent, owner, mode, g.leaf);
      return 0;
    }

    /** `fs_write_file` */
    method WriteFile(cwd: nat, path: cstring, data: Option<seq<byte>>, size: nat) returns (rc: int)
      requires Valid() && LiveDir(nodes[..], cwd) && (data.Some? ==> size <= |data.value|)
      modifies nodes
      ensures var w := Write(old(nodes[..]), cwd, path, data, size); nodes[..] == w.0 && rc == w.1
      ensures Valid() && Puts(old(nodes[..]), (nodes[..], rc), cwd, path, data, size)
      ensures var t := old(nodes[..]);
        WriteOutcome(t, nodes[..], rc, Table.Resolve(t, cwd, path), Locate(t, cwd, path), size)
      ensures rc == 0 && data.Some? ==>
        && Live(nodes[..], cwd)
        && Get(Abs(nodes[..]), PathOf(nodes[..], cwd), path)
           == Some(if size <= 4095 then data.value[..size] else data.value[..4095])
    {
      ghost var t := nodes[..];
      WriteKeepsTree(t, cwd, path, data, size);
      WriteExactly(t, cwd, path, data, size);
      rc := WriteSteps(cwd, path, data, size);
      if rc == 0 && data.Some? { WrittenIsRead(t, cwd, path, data.value, size); }
    }

    /** Its statements, against the table function. */
    method WriteSteps(cwd: nat, path: cstring, data: Option<seq<byte>>, size: nat) returns (rc: int)
      requires Shape(nodes[..]) && cwd < nodes.Length && (data.Some? ==> size <= |data.value|)
      modifies nodes
      ensures var w := Write(old(nodes[..]), cwd, path, data, size); nodes[..] == w.0 && rc == w.1
    {
      var node := Resolve(cwd, path);
      if node < 0 {
        CreateBuffered(nodes[..], Locate(nodes[..], cwd, path), false, 0, FILE_MODE);
        var touched := TouchSteps(cwd, path, 0, FILE_MODE);
        if touched != 0 { return -1; }
        node := Resolve(cwd, path);
      }
      if node < 0 || nodes[node].isDir { return -1; }
      StoreInto(node, data, size);
      return 0;
    }

    /** The copy at the end of `fs_write_file`. */
    method StoreInto(node: nat, data: Option<seq<byte>>, size: nat)
      requires Shape(nodes[..]) && node < nodes.Length && (data.Some? ==> size <= |data.value|)
      modifies nodes
      ensures nodes[..] == old(nodes[..])[node := Written(old(nodes[..])[node], data, size)]
    {
      var capped := if size >= FILE_BUF then FILE_BUF - 1 else size;
      assert nodes[node] == nodes[..][node];
      ghost var n := nodes[node];
      if capped > 0 && data.Some? {
        nodes[node] := nodes[node].(data := Splice(nodes[node].data, 0, data.value[..capped]));
      } else {
        assert data.Some? ==> Splice(n.data, 0, data.value[..capped]) == n.data;
      }
      nodes[node] := nodes[node].(data := nodes[node].data[capped := NUL]);
      nodes[node] := nodes[node].(size := capped);
    }

    /** `fs_read_file`; `None` is its -1. */
    method ReadFile(cwd: nat, path: cstring) returns (content: Option<seq<byte>>)
      requires Valid() && LiveDir(nodes[..], cwd)
      ensures content == Get(Abs(nodes[..]), PathOf(nodes[..], cwd), path)
    {
      ReadRefines(nodes[..], cwd, path);
      var node := Resolve(cwd, path);
      if node < 0 || nodes[node].isDir { return None; }
      assert nodes[..][node] == nodes[node];
      return Some(nodes[node].data[..nodes[node].size]);
    }

    /** `fs_remove` */
    method Remove(cwd: nat, path: cstring) returns (rc: int)
      requires Valid() && LiveDir(nodes[..], cwd)
      modifies nodes
      ensures var t := old(nodes[..]);
        var k := Table.Resolve(t, cwd, path);
        if k > 0 && (forall i :: Live(t, i) ==> t[i].parent != k) then
          rc == 0 && !nodes[k].used && forall i :: 0 <= i < nodes.Length && i != k ==> nodes[i] == t[i]
        else rc == -1 && nodes[..] == t
      ensures Valid() && (Abs(nodes[..]), rc) == Drop(Abs(old(nodes[..])), PathOf(old(nodes[..]), cwd), path)
    {
      RemoveRefines(nodes[..], cwd, path);
      RemoveExactly(nodes[..], cwd, path);
      rc := RemoveSteps(cwd, path);
    }

    /** Its statements, against the table function. */
    method RemoveSteps(cwd: nat, path: cstring) returns (rc: int)
      requires Shape(nodes[..]) && cwd < nodes.Length
      modifies nodes
      ensures (nodes[..], rc) == Table.Remove(old(nodes[..]), cwd, path)
    {
      var node := Resolve(cwd, path);
      if node <= 0 { return -1; }
      if nodes[node].isDir {
        for i := 0 to nodes.Length
          invariant forall k :: 0 <= k < i ==> !(nodes[k].used && nodes[k].parent == node)
        {
          if nodes[i].used && nodes[i].parent == node {
            assert nodes[..][i] == nodes[i];
            assert HasChild(nodes[..], node);
            return -1;
          }
        }
        assert !HasChild(nodes[..], node);
      }
      nodes[node] := nodes[node].(used := false);
      return 0;
    }

    /** `fs_set_owner` */
    method SetOwner(node: int, owner: uint16) returns (rc: int)
      requires Valid()
      modifies nodes
      ensures (nodes[..], rc) == Table.SetOwner(old(nodes[..]), node, owner) && Valid()
      ensures var t := old(nodes[..]);
        if 0 <= node < |t| && t[node].used then rc == 0 && nodes[..] == t[node := t[node].(owner := owner)]
        else rc == -1 && nodes[..] == t
    {
      if node < 0 || node >= nodes.Length || !nodes[node].used { return -1; }
      ApplyKeepsTree(nodes[..], Chown(node, owner));
      nodes[node] := nodes[node].(owner := owner);
      return 0;
    }

    /** `fs_set_mode` */
    method SetMode(node: int, mode: uint16) returns (rc: int)
      requires Valid()
      modifies nodes
      ensures (nodes[..], rc) == Table.SetMode(old(nodes[..]), node, mode) && Valid()
      ensures var t := old(nodes[..]);
        if 0 <= node < |t| && t[node].used then rc == 0 && nodes[..] == t[node := t[node].(mode := mode % 512)]
        else rc == -1 && nodes[..] == t
    {
      if node < 0 || node >= nodes.Length || !nodes[node].used { return -1; }
      ApplyKeepsTree(nodes[..], Chmod(node, mode));
      nodes[node] := nodes[node].(mode := mode % 512);
      return 0;
    }

    /** `fs_list`: the count of all children, and as many of them as fit in `out`. */
    method List(dir: int, out: array<int>, maxOut: nat) returns (count: int)
      requires maxOut <= out.Length
      modifies out
      ensures LiveDir(nodes[..], dir) ==>
        var s := Children(nodes[..], dir);
        var k := if |s| < maxOut then |s| else maxOut;
        count == |s| && out[..] == s[..k] + old(out[..])[k..]
      ensures !LiveDir(nodes[..], dir) ==> count == -1 && out[..] == old(out[..])
    {
      if dir < 0 || dir >= nodes.Length || !nodes[dir].used || !nodes[dir].isDir { return -1; }
      count := 0;
      ghost var t, was := nodes[..], out[..];
      for i := 0 to nodes.Length
        invariant nodes[..] == t && count == |ChildrenBelow(t, dir, i)|
        invariant forall j :: 0 <= j < count && j < maxOut ==> out[j] == ChildrenBelow(t, dir, i)[j]
        invariant forall j :: count <= j < out.Length || maxOut <= j < out.Length ==> out[j] == was[j]
      {
        assert t[i] == nodes[i];
        if nodes[i].used && nodes[i].parent == dir && i != dir {
          if count < maxOut { out[count] := i; }
          count := count + 1;
        }
      }
      assert t == nodes[..];
    }

    /** `fs_serialize`: the version 2 image, or 0 and no change when it does not fit. */
    method Serialize(out: array<byte>, maxLen: nat) returns (len: nat)
      requires AllFit(nodes[..]) && nodes.Length < 0x1_0000_0000 && maxLen <= out.Length
      modifies out
      ensures maxLen < Offset(2, nodes.Length) ==> len == 0 && out[..] == old(out[..])
      ensures maxLen >= Offset(2, nodes.Length) ==>
        len == Offset(2, nodes.Length) && out[..] == Encode(nodes[..], 2) + old(out[..])[len..]
    {
      var needed := HEADER_SIZE + 4142 * nodes.Length;
      OffsetClosed(2, nodes.Length);
      if maxLen < needed { return 0; }
      len := SerializeAll(out);
      assert out[..] == out[..len] + out[len..];
    }

    /** The header and the record loop of `fs_serialize`. */
    method SerializeAll(out: array<byte>) returns (offset: nat)
      requires AllFit(nodes[..]) && nodes.Length < 0x1_0000_0000 && Offset(2, nodes.Length) <= out.Length
      modifies out
      ensures offset == Offset(2, nodes.Length) && out[..offset] == Encode(nodes[..], 2)
      ensures out[offset..] == old(out[..])[offset..]
    {
      OffsetMonotone(2, 0, nodes.Length);
      Append(out, 0, MAGIC + [NUL] + Le32(2) + Le32(nodes.Length));
      offset := HEADER_SIZE;
      for i := 0 to nodes.Length
        invariant offset == Offset(2, i) <= out.Length
        invariant out[..offset] == EncodePrefix(nodes[..], 2, i)
        invariant forall k :: offset <= k < out.Length ==> out[k] == old(out[k])
      {
        OffsetMonotone(2, i + 1, nodes.Length);
        offset := SerializeSlot(out, i, offset);
      }
    }

    /** The body of the record loop of `fs_serialize`. */
    method SerializeSlot(out: array<byte>, i: nat, offset: nat) returns (next: nat)
      requires AllFit(nodes[..]) && i < nodes.Length < 0x1_0000_0000
      requires offset == Offset(2, i) && Offset(2, i + 1) <= out.Length
      requires out[..offset] == EncodePrefix(nodes[..], 2, i)
      modifies out
      ensures next == Offset(2, i + 1) && out[..next] == EncodePrefix(nodes[..], 2, i + 1)
      ensures forall k :: next <= k < out.Length ==> out[k] == old(out[k])
    {
      Append(out, offset, EncodeRecord(nodes[i], 2));
      next := offset + 4142;
    }

    /** `fs_deserialize`: a rejected image changes nothing, an image without a root directory
        leaves a fresh file system, any other is decoded into the table. */
    method Deserialize(input: seq<byte>) returns (rc: int)
      requires 1 <= nodes.Length < 0x1_0000_0000
      modifies nodes
      ensures match Decode(input, nodes.Length)
        case Rejected => rc == -1 && nodes[..] == old(nodes[..])
        case BadRoot => rc == -1 && nodes[..] == InitNodes(nodes.Length)
        case Accepted(t) => rc == 0 && nodes[..] == t
    {
      var version := ReadHeader(input);
      if version == 0 { return -1; }
      DecodeSlots(input, version);
      if !nodes[0].used || !nodes[0].isDir {
        Init();
        return -1;
      }
      nodes[0] := nodes[0].(used := true, isDir := true, parent := 0, owner := 0, mode := DIR_MODE);
      nodes[0] := nodes[0].(name := Splice(nodes[0].name, 0, [SLASH, NUL]));
      return 0;
    }

    /** The checks at the start of `fs_deserialize`; 0 stands for its return of -1. */
    method ReadHeader(input: seq<byte>) returns (version: int)
      requires 1 <= nodes.Length < 0x1_0000_0000
      ensures version == if GoodHeader(input, nodes.Length) then FromLe32(input[8..12]) else 0
    {
      if |input| < HEADER_SIZE { return 0; }
      var magic := KStrncmp(input[..8], MAGIC + [NUL], 7);
      MagicMatches(input);
      version := FromLe32(input[8..12]);
      if magic != 0 || FromLe32(input[12..16]) != nodes.Length { return 0; }
      var required;
      if version == 1 {
        required := HEADER_SIZE + 4138 * nodes.Length;
      } else if version == 2 {
        required := HEADER_SIZE + 4142 * nodes.Length;
      } else {
        return 0;
      }
      OffsetClosed(version, nodes.Length);
      if |input| < required { return 0; }
    }

    /** The `kmemset` and the record loop of `fs_deserialize`. */
    method DecodeSlots(input: seq<byte>, version: int)
      requires 1 <= version <= 2 && Offset(version, nodes.Length) <= |input|
      modifies nodes
      ensures nodes[..] == DecodeRecords(input, version, nodes.Length)
    {
      for i := 0 to nodes.Length {
        nodes[i] := BlankNode();
      }
      var offset := HEADER_SIZE;
      for i := 0 to nodes.Length
        invariant offset == Offset(version, i) <= |input|
        invariant forall k :: 0 <= k < i ==> nodes[k] == DecodeRecords(input, version, nodes.Length)[k]
      {
        var size := if version == 1 then 4138 else 4142;
        OffsetMonotone(version, i + 1, nodes.Length);
        var dn := input[offset..offset + size];
        assert dn == RecordAt(input, version, i);
        nodes[i] := Unpack(nodes[i], dn, version);
        offset := offset + size;
      }
    }

    /** The assignments that fill one slot from its record `dn`. */
    static method Unpack(slot: Node, dn: seq<byte>, version: int) returns (n: Node)
      requires |dn| == RecordSize(version)
      ensures n == DecodeRecord(dn, version)
    {
      n := slot.(used := dn[0] != 0, isDir := dn[1] != 0, parent := FromLeI32(dn[2..6]));
      var rest;
      if version == 1 {
        n := n.(owner := 0, mode := if n.isDir then DIR_MODE else FILE_MODE, size := FromLe32(dn[6..10]));
        rest := 10;
      } else {
        n := n.(owner := FromLe16(dn[6..8]), mode := FromLe16(dn[8..10]) % 512, size := FromLe32(dn[10..14]));
        rest := 14;
      }
      if n.size >= FILE_BUF { n := n.(size := FILE_BUF - 1); }
      n := n.(name := dn[rest..rest + NAME_BUF]);
      n := n.(name := n.name[MAX_NAME := NUL], data := dn[rest + NAME_BUF..]);
      n := n.(data := n.data[n.size := NUL]);
    }

    /** `fs_make_path`: writes the path text and a NUL, never past `outSize`. A non-root node
        needs one byte more than the text and its NUL. */
    method MakePath(node: int, out: array<byte>, outSize: nat) returns (rc: int)
      requires Valid() && outSize <= out.Length
      modifies out
      ensures rc == 0 || rc == -1
      ensures rc == 0 <==>
        Live(nodes[..], node) && outSize >= |PathText(PathOf(nodes[..], node))| + (if node == 0 then 1 else 2)
      ensures rc == 0 ==>
        var text := PathText(PathOf(nodes[..], node));
        |text| < outSize && out[..|text| + 1] == text + [NUL]
      ensures Live(nodes[..], node) ==> IsShortest(PathText(PathOf(nodes[..], node)), PathOf(nodes[..], node))
      ensures forall k :: outSize <= k < out.Length ==> out[k] == old(out[k])
    {
      if Live(nodes[..], node) { TextIsShortest(nodes[..], node); }
      rc := WritePath(node, out, outSize);
    }

    /** The statements of `fs_make_path`. */
    method WritePath(node: int, out: array<byte>, outSize: nat) returns (rc: int)
      requires Valid() && outSize <= out.Length
      modifies out
      ensures rc == 0 || rc == -1
      ensures rc == 0 <==>
        Live(nodes[..], node) && outSize >= |PathText(PathOf(nodes[..], node))| + (if node == 0 then 1 else 2)
      ensures rc == 0 ==>
        var text := PathText(PathOf(nodes[..], node));
        |text| < outSize && out[..|text| + 1] == text + [NUL]
      ensures forall k :: outSize <= k < out.Length ==> out[k] == old(out[k])
    {
      ghost var t := nodes[..];
      if outSize == 0 { return -1; }
      if node < 0 || node >= nodes.Length || !nodes[node].used { return -1; }
      if node == 0 {
        if outSize < 2 { return -1; }
        out[0] := SLASH;
        out[1] := NUL;
        return 0;
      }
      PathOfChild(t, node);
      var stack, depth := CollectChain(node);
      rc := PrintChain(stack, depth, PathOf(t, node), out, outSize);
    }

    /** A caller that prints a node and resolves the text it finds in the buffer, as the editor does
        to open a file, is back at the node exactly when no name on the path is "." or "..". */
    method PrintAndResolve(node: int, out: array<byte>, outSize: nat, cwd: nat) returns (rc: int, found: int)
      requires Valid() && outSize <= out.Length && cwd < nodes.Length
      modifies out
      ensures rc == 0 <==>
        Live(nodes[..], node) && outSize >= |PathText(PathOf(nodes[..], node))| + (if node == 0 then 1 else 2)
      ensures rc == 0 ==> (found == node <==> NoDots(PathOf(nodes[..], node)))
      ensures forall k :: outSize <= k < out.Length ==> out[k] == old(out[k])
    {
      found := -1;
      rc := MakePath(node, out, outSize);
      if rc == 0 {
        TextReadsBack(nodes[..], node, out[..]);
        PrintThenResolve(nodes[..], node, cwd);
        found := Resolve(cwd, CStr(out[..]));
      }
    }

    /** The second half of `fs_make_path`: the names on the stack, last one first. */
    method PrintChain(stack: array<int>, depth: nat, ghost p: Path, out: array<byte>, outSize: nat) returns (rc: int)
      requires 0 < depth == |p| <= stack.Length && 0 < outSize <= out.Length
      requires forall k :: 0 <= k < depth ==> IsNamed(stack[k], p[depth - 1 - k])
      modifies out
      ensures rc == 0 || rc == -1
      ensures rc == 0 <==> outSize >= |Render(p)| + 2
      ensures rc == 0 ==> out[..|Render(p)| + 1] == Render(p) + [NUL]
      ensures forall k :: outSize <= k < out.Length ==> out[k] == old(out[k])
    {
      if 1 >= outSize { return -1; }
      out[0] := SLASH;
      var pos := 1;
      var i := depth - 1;
      while i >= 0
        invariant -1 <= i < depth && 1 <= pos < outSize
        invariant out[..pos] == Partial(p, depth - 1 - i)
        invariant i < 0 ==> pos + 1 < outSize
        invariant forall k :: outSize <= k < out.Length ==> out[k] == old(out[k])
      {
        assert IsNamed(stack[i], p[depth - 1 - i]);
        var next := PrintNode(stack[i], i == 0, p, depth - 1 - i, out, pos, outSize);
        if next < 0 { return -1; }
        pos := next;
        i := i - 1;
      }
      out[pos] := NUL;
      return 0;
    }

    /** One round of the printing loop, for the node of component `k`. */
    method PrintNode(node: int, last: bool, ghost p: Path, ghost k: nat, out: array<byte>, pos: nat, outSize: nat)
      returns (next: int)
      requires k < |p| && IsNamed(node, p[k]) && (last <==> k + 1 == |p|)
      requires 0 < pos < outSize <= out.Length && out[..pos] == Partial(p, k)
      modifies out
      ensures next == -1 ==> outSize < |Render(p)| + 2
      ensures next != -1 ==> 0 < next < outSize && out[..next] == Partial(p, k + 1) && (last ==> next + 1 < outSize)
      ensures forall j :: outSize <= j < out.Length ==> out[j] == old(out[j])
    {
      PartialNext(p, k);
      next := PrintName(nodes[node].name, last, out, pos, outSize);
    }

    /** One round of the printing loop: the name and, unless it is the last, a slash. The new
        position, or -1 when there is no room. */
    static method PrintName(name: seq<byte>, last: bool, out: array<byte>, pos: nat, outSize: nat) returns (next: int)
      requires NUL in name && 0 < pos < outSize <= out.Length
      modifies out
      ensures next == -1 <==> pos + |CStr(name)| + 1 >= outSize
      ensures next != -1 ==> 0 < next < outSize && (last ==> next + 1 < outSize)
      ensures next != -1 ==> out[..next] == old(out[..pos]) + CStr(name) + (if last then [] else [SLASH])
      ensures forall k :: outSize <= k < out.Length ==> out[k] == old(out[k])
    {
      var len := KStrlen(name);
      if pos + len + 1 >= outSize { return -1; }
      Append(out, pos, name[..len]);
      next := pos + len;
      if !last {
        Append(out, next, [SLASH]);
        next := next + 1;
      }
    }

    /** One `kmemcpy` behind the `pos` bytes already written. */
    static method Append(out: array<byte>, pos: nat, src: seq<byte>)
      requires pos + |src| <= out.Length
      modifies out
      ensures out[..pos + |src|] == old(out[..pos]) + src
      ensures forall k :: pos + |src| <= k < out.Length ==> out[k] == old(out[k])
    {
      KMemcpy(out, pos, src);
    }

    ghost predicate IsNamed(i: int, name: Name)
      reads this, nodes
    {
      0 <= i < nodes.Length && NUL in nodes[i].name && nodes[i].Title() == name
    }

    /** The first loop of `fs_make_path`: the node, its parent, and so on below the root. The
        depth cap is never what stops it. */
    method CollectChain(node: nat) returns (stack: array<int>, depth: nat)
      requires Valid() && Live(nodes[..], node) && node != 0
      ensures fresh(stack) && stack.Length == nodes.Length
      ensures depth == |PathOf(nodes[..], node)| < nodes.Length
      ensures forall k :: 0 <= k < depth ==> IsNamed(stack[k], PathOf(nodes[..], node)[depth - 1 - k])
    {
      ghost var t := nodes[..];
      ghost var p := PathOf(t, node);
      DepthBound(t, node);
      stack := new int[nodes.Length];
      depth := 0;
      var cur: int := node;
      while cur != 0 && depth < nodes.Length
        invariant depth <= |p| && Live(t, cur)
        invariant PathOf(t, cur) == p[..|p| - depth]
        invariant forall k :: 0 <= k < depth ==> IsNamed(stack[k], p[|p| - 1 - k])
        decreases |p| - depth
      {
        PathOfChild(t, cur);
        assert NodeOk(t[cur]) && t[cur].name[MAX_NAME] == NUL;
        assert IsNamed(cur, p[|p| - 1 - depth]);
        stack[depth] := cur;
        depth := depth + 1;
        assert nodes[cur] == t[cur];
        cur := nodes[cur].parent;
      }
    }
  }

  // ---- lemmas for the loops --------------------------------------------------------------

  lemma TerminatedString(s: cstring)
    ensures CStr(s + [NUL]) == s
  {
    IndexOfUnique(s + [NUL], NUL, |s|);
    assert (s + [NUL])[..|s|] == s;
  }

  lemma MagicMatches(input: seq<byte>)
    requires |input| >= HEADER_SIZE
    ensures CStr(input[..8][..7]) == CStr((MAGIC + [NUL])[..7]) <==> input[..7] == MAGIC
  {
    assert input[..8][..7] == input[..7] && (MAGIC + [NUL])[..7] == MAGIC;
    IndexOfUnique(MAGIC, NUL, 7);
    assert MAGIC[..7] == MAGIC;
    if CStr(input[..7]) == MAGIC {
      assert input[..7][..7] == input[..7];
    }
  }

  /** An absolute text of the components `p`, shorter than every other one. */
  ghost predicate IsShortest(text: seq<byte>, p: Path) {
    && text != [] && text[0] == 47 && Components(text) == p
    && forall s: seq<byte> :: s != [] && s[0] == 47 && Components(s) == p && s != text ==> |text| < |s|
  }

  lemma TextIsShortest(t: Nodes, i: nat)
    requires Tree(t) && Live(t, i)
    ensures IsShortest(PathText(PathOf(t, i)), PathOf(t, i))
  {
    var p := PathOf(t, i);
    ComponentsOfRender(p);
    assert Components([SLASH]) == Components([]);
    forall s: seq<byte> | s != [] && s[0] == 47 && Components(s) == p && s != PathText(p) ensures |PathText(p)| < |s| {
      PathTextIsShortest(s);
    }
  }

  /** The text of a node read back from a buffer as a C string. */
  lemma TextReadsBack(t: Nodes, i: nat, out: seq<byte>)
    requires Tree(t) && Live(t, i)
    requires var text := PathText(PathOf(t, i)); |text| < |out| && out[..|text| + 1] == text + [NUL]
    ensures CStr(out) == PathText(PathOf(t, i))
  {
    var text := PathText(PathOf(t, i));
    NamesAreStrings(t, i);
    RenderIsString(PathOf(t, i));
    forall k | 0 <= k <= |text| ensures out[k] == (text + [NUL])[k] {
      assert out[..|text| + 1][k] == out[k];
    }
    IndexOfUnique(out, NUL, |text|);
    assert out[..|text|] == out[..|text| + 1][..|text|] == text;
  }

  lemma {:induction false} NamesAreStrings(t: Nodes, i: nat)
    requires Tree(t) && Live(t, i)
    ensures forall k :: 0 <= k < |PathOf(t, i)| ==> NUL !in PathOf(t, i)[k]
    decreases Depths(t)[i]
  {
    if i != 0 {
      ParentFacts(t, i);
      NamesAreStrings(t, t[i].parent);
      PathOfChild(t, i);
    }
  }

  lemma {:induction false} RenderIsString(p: Path)
    requires forall k :: 0 <= k < |p| ==> NUL !in p[k]
    ensures NUL !in Render(p)
  {
    if p != [] { RenderIsString(p[..|p| - 1]); }
  }

  lemma {:induction false} RenderPrefix(p: Path, k: nat)
    requires k <= |p|
    ensures |Render(p[..k])| <= |Render(p)|
    decreases |p| - k
  {
    if k < |p| {
      RenderPrefix(p, k + 1);
      assert p[..k + 1][..k] == p[..k];
    } else {
      assert p[..k] == p;
    }
  }

  /** The text written once `k` names are out: a slash waits for the next name, if any. */
  ghost function Partial(p: Path, k: nat): seq<byte>
    requires k <= |p|
  {
    if k < |p| then Render(p[..k]) + [SLASH] else Render(p)
  }

  lemma PartialNext(p: Path, k: nat)
    requires k < |p|
    ensures Partial(p, k + 1) == Partial(p, k) + p[k] + (if k + 1 < |p| then [SLASH] else [])
    ensures |Partial(p, k)| + |p[k]| <= |Render(p)|
  {
    assert p[..k + 1][..k] == p[..k];
    RenderPrefix(p, k + 1);
    if k + 1 == |p| { assert p[..k + 1] == p; }
  }

  /** Table and return value are those of `Put`. */
  ghost predicate Puts(t: Nodes, after: (Nodes, int), cwd: nat, path: cstring, data: Option<seq<byte>>, size: nat)
    requires Tree(t) && LiveDir(t, cwd) && (data.Some? ==> size <= |data.value|)
  {
    var content := BytesFor(SlotFor(t, cwd, path), data, size);
    Does(t, after.0, after.1, Put(Abs(t), |t|, PathOf(t, cwd), path, content))
  }

  lemma WriteKeepsTree(t: Nodes, cwd: nat, path: cstring, data: Option<seq<byte>>, size: nat)
    requires Tree(t) && LiveDir(t, cwd) && (data.Some? ==> size <= |data.value|)
    ensures var w := Write(t, cwd, path, data, size); Tree(w.0) && Puts(t, (w.0, w.1), cwd, path, data, size)
  {
    WriteRefines(t, cwd, path, data, size);
  }

  lemma CreateKeepsTree(t: Nodes, cwd: nat, path: cstring, isDir: bool, owner: uint16, mode: uint16)
    requires Tree(t) && LiveDir(t, cwd)
    ensures Tree(Create(t, cwd, path, isDir, owner, mode).0)
    ensures LiveDir(Create(t, cwd, path, isDir, owner, mode).0, cwd)
    ensures var (u, rc) := Create(t, cwd, path, isDir, owner, mode);
      && Does(t, u, rc, Make(Abs(t), |t|, PathOf(t, cwd), path, isDir, owner, mode))
      && Created(t, u, rc, Locate(t, cwd, path), isDir, owner, mode)
  {
    CreateRefines(t, cwd, path, isDir, owner, mode);
    CreateExactly(t, cwd, path, isDir, owner, mode);
    CreateKeepsDir(t, Locate(t, cwd, path), cwd, isDir, owner, mode);
  }

  lemma CreateKeepsDir(t: Nodes, g: Target, dir: nat, isDir: bool, owner: uint16, mode: uint16)
    requires Shape(t) && LiveDir(t, dir) && (g.Target? ==> ValidName(g.leaf))
    ensures LiveDir(CreateAt(t, g, isDir, owner, mode).0, dir)
  {
  }
}
