/** The on-disk image of the node table: a 16-byte header and one packed record per slot.
    Version 1 records have no owner and mode fields. */
module Image {
  import opened Bytes
  import opened Paths
  import opened Table
  import opened PathMap
  import opened Refinement

  const FS_MAX_NODES := 128
  const HEADER_SIZE := 16
  const MAGIC: seq<byte> := [70, 85, 82, 70, 83, 118, 49]  // FURFSv1

  /** `sizeof(struct fs_disk_node_v1)` and `sizeof(struct fs_disk_node)`. */
  function RecordSize(v: int): nat {
    if v == 1 then 4138 else 4142
  }

  /** Offset of record `i` in the image. */
  function Offset(v: int, i: nat): (k: nat)
    ensures k >= HEADER_SIZE
  {
    if i == 0 then HEADER_SIZE else Offset(v, i - 1) + RecordSize(v)
  }

  lemma {:induction false} OffsetClosed(v: int, i: nat)
    ensures Offset(v, i) == HEADER_SIZE + (if v == 1 then 4138 * i else 4142 * i)
  {
    if i > 0 { OffsetClosed(v, i - 1); }
  }

  lemma {:induction false} OffsetMonotone(v: int, i: nat, n: nat)
    requires i <= n
    ensures Offset(v, i) <= Offset(v, n)
  {
    if i < n { OffsetMonotone(v, i, n - 1); }
  }

  /** The fields fit the widths they have on disk. */
  predicate Fits(n: Node) {
    && Buffers(n) && -0x8000_0000 <= n.parent < 0x8000_0000 && n.size < 0x1_0000_0000
  }

  predicate AllFit(t: Nodes) {
    forall i :: 0 <= i < |t| ==> Fits(t[i])
  }

  function Flag(b: bool): byte {
    if b then 1 else 0
  }

  // ---- writing ---------------------------------------------------------------------------

  function Rights(n: Node, v: int): (b: seq<byte>)
    ensures |b| == if v == 1 then 0 else 4
  {
    if v == 1 then [] else Le16(n.owner) + Le16(n.mode)
  }

  function EncodeRecord(n: Node, v: int): (b: seq<byte>)
    requires Fits(n)
    ensures |b| == RecordSize(v)
  {
    [Flag(n.used), Flag(n.isDir)] + LeI32(n.parent) + Rights(n, v) + Le32(n.size) + n.name + n.data
  }

  function EncodeHeader(v: int, count: nat): (b: seq<byte>)
    requires 0 <= v < 0x1_0000_0000 && count < 0x1_0000_0000
    ensures |b| == HEADER_SIZE
  {
    MAGIC + [NUL] + Le32(v) + Le32(count)
  }

  /** The image up to record `i`. */
  function EncodePrefix(t: Nodes, v: int, i: nat): (b: seq<byte>)
    requires AllFit(t) && 1 <= v <= 2 && i <= |t| < 0x1_0000_0000
    ensures |b| == Offset(v, i)
  {
    if i == 0 then EncodeHeader(v, |t|) else EncodePrefix(t, v, i - 1) + EncodeRecord(t[i - 1], v)
  }

  function Encode(t: Nodes, v: int): (b: seq<byte>)
    requires AllFit(t) && 1 <= v <= 2 && |t| < 0x1_0000_0000
    ensures |b| == Offset(v, |t|)
  {
    EncodePrefix(t, v, |t|)
  }

  // ---- reading ---------------------------------------------------------------------------

  function Clamp(size: nat): (s: nat)
    ensures s < FILE_BUF
  {
    if size >= FILE_BUF then FILE_BUF - 1 else size
  }

  function DefaultMode(isDir: bool): uint16 {
    if isDir then DIR_MODE else FILE_MODE
  }

  function DecodeRecord(b: seq<byte>, v: int): (n: Node)
    requires |b| == RecordSize(v)
    ensures NodeOk(n)
  {
    var k := if v == 1 then 6 else 10;
    var isDir := b[1] != 0;
    var size := Clamp(FromLe32(b[k..k + 4]));
    Node(b[0] != 0, isDir, FromLeI32(b[2..6]),
         if v == 1 then 0 else FromLe16(b[6..8]),
         if v == 1 then DefaultMode(isDir) else FromLe16(b[8..10]) % 512,
         b[k + 4..k + 36][MAX_NAME := NUL], b[k + 36..][size := NUL], size)
  }

  function RecordAt(b: seq<byte>, v: int, i: nat): (r: seq<byte>)
    requires Offset(v, i + 1) <= |b|
    ensures |r| == RecordSize(v)
  {
    assert Offset(v, i + 1) == Offset(v, i) + RecordSize(v);
    b[Offset(v, i)..Offset(v, i + 1)]
  }

  function DecodeRecords(b: seq<byte>, v: int, n: nat): (t: Nodes)
    requires Offset(v, n) <= |b|
    ensures |t| == n
  {
    seq(n, i requires 0 <= i < n => OffsetMonotone(v, i + 1, n); DecodeRecord(RecordAt(b, v, i), v))
  }

  predicate GoodHeader(b: seq<byte>, count: nat) {
    && |b| >= HEADER_SIZE
    && b[..7] == MAGIC && FromLe32(b[12..16]) == count
    && 1 <= FromLe32(b[8..12]) <= 2
    && |b| >= Offset(FromLe32(b[8..12]), count)
  }

  datatype Decoded = Rejected | BadRoot | Accepted(nodes: Nodes)

  /** The assignments `fs_deserialize` makes to slot 0 at the end. */
  function FixRoot(n: Node): Node
    requires Buffers(n)
  {
    n.(used := true, isDir := true, parent := 0, owner := 0, mode := DIR_MODE,
       name := Splice(n.name, 0, [SLASH, NUL]))
  }

  /** What `fs_deserialize` makes of the bytes `b` for a table of `count` slots: nothing, a
      fresh file system, or the decoded table. */
  function Decode(b: seq<byte>, count: nat): Decoded
    requires count >= 1
  {
    if !GoodHeader(b, count) then Rejected
    else
      var t := DecodeRecords(b, FromLe32(b[8..12]), count);
      if !t[0].used || !t[0].isDir then BadRoot
      else Accepted(t[0 := FixRoot(t[0])])
  }

  // ---- round trips -----------------------------------------------------------------------

  lemma FieldsOfRecord(n: Node, v: int)
    requires Fits(n)
    ensures var b, k := EncodeRecord(n, v), if v == 1 then 6 else 10;
      && b[0] == Flag(n.used) && b[1] == Flag(n.isDir)
      && b[2..6] == LeI32(n.parent) && b[k..k + 4] == Le32(n.size)
      && b[k + 4..k + 36] == n.name && b[k + 36..] == n.data
      && (v != 1 ==> b[6..8] == Le16(n.owner) && b[8..10] == Le16(n.mode))
  {
    var b := EncodeRecord(n, v);
    var head := [Flag(n.used), Flag(n.isDir)] + LeI32(n.parent) + Rights(n, v) + Le32(n.size);
    var k := |head| - 4;
    assert b == head + (n.name + n.data);
    assert b[k..k + 4] == Le32(n.size);
    assert b[k + 4..] == n.name + n.data;
    assert b[k + 4..k + 36] == b[k + 4..][..32] == n.name;
    assert b[k + 36..] == b[k + 4..][32..] == n.data;
  }

  /** What a version 2 record keeps. */
  lemma RecordRoundTrip(n: Node)
    requires Fits(n) && NodeOk(n)
    ensures DecodeRecord(EncodeRecord(n, 2), 2) == n
  {
    FieldsOfRecord(n, 2);
    LeFieldsRoundTrip();
    assert n.name[MAX_NAME := NUL] == n.name;
    assert n.data[n.size := NUL] == n.data;
  }

  /** The node a version 1 record stands for. */
  function Migrated(n: Node): Node {
    n.(owner := 0, mode := DefaultMode(n.isDir))
  }

  /** A version 1 record decodes as the version 2 record with owner 0 and the default mode. */
  lemma RecordMigrates(n: Node)
    requires Fits(n)
    ensures DecodeRecord(EncodeRecord(n, 1), 1) == DecodeRecord(EncodeRecord(Migrated(n), 2), 2)
  {
    FieldsOfRecord(n, 1);
    FieldsOfRecord(Migrated(n), 2);
    LeFieldsRoundTrip();
  }

  lemma SliceOfPrefix(r: seq<byte>, last: seq<byte>, a: nat, b: nat)
    requires a <= b <= |r|
    ensures (r + last)[a..b] == r[a..b]
  {
  }

  lemma SliceOfSuffix(r: seq<byte>, last: seq<byte>)
    ensures (r + last)[|r|..|r| + |last|] == last
  {
  }

  lemma {:induction false} HeaderInPrefix(t: Nodes, v: int, n: nat)
    requires AllFit(t) && 1 <= v <= 2 && n <= |t| < 0x1_0000_0000
    ensures EncodePrefix(t, v, n)[..HEADER_SIZE] == EncodeHeader(v, |t|)
  {
    if n > 0 {
      HeaderInPrefix(t, v, n - 1);
      SliceOfPrefix(EncodePrefix(t, v, n - 1), EncodeRecord(t[n - 1], v), 0, HEADER_SIZE);
    }
  }

  lemma {:induction false} RecordInPrefix(t: Nodes, v: int, n: nat, i: nat)
    requires AllFit(t) && 1 <= v <= 2 && i < n <= |t| < 0x1_0000_0000
    ensures Offset(v, i) <= Offset(v, i + 1) <= Offset(v, n)
    ensures EncodePrefix(t, v, n)[Offset(v, i)..Offset(v, i + 1)] == EncodeRecord(t[i], v)
  {
    var r, last := EncodePrefix(t, v, n - 1), EncodeRecord(t[n - 1], v);
    if i < n - 1 {
      RecordInPrefix(t, v, n - 1, i);
      SliceOfPrefix(r, last, Offset(v, i), Offset(v, i + 1));
    } else {
      SliceOfSuffix(r, last);
    }
  }

  lemma RecordAtOfImage(t: Nodes, v: int, rest: seq<byte>, i: nat)
    requires AllFit(t) && 1 <= v <= 2 && i < |t| < 0x1_0000_0000
    ensures Offset(v, i + 1) <= |Encode(t, v) + rest|
    ensures RecordAt(Encode(t, v) + rest, v, i) == EncodeRecord(t[i], v)
  {
    RecordInPrefix(t, v, |t|, i);
    SliceOfPrefix(Encode(t, v), rest, Offset(v, i), Offset(v, i + 1));
  }

  lemma HeaderOfImage(t: Nodes, v: int, rest: seq<byte>)
    requires AllFit(t) && 1 <= v <= 2 && |t| < 0x1_0000_0000
    ensures var b := Encode(t, v) + rest;
      GoodHeader(b, |t|) && FromLe32(b[8..12]) == v
  {
    var b, h := Encode(t, v) + rest, EncodeHeader(v, |t|);
    OffsetMonotone(v, 0, |t|);
    HeaderInPrefix(t, v, |t|);
    SliceOfPrefix(Encode(t, v), rest, 0, HEADER_SIZE);
    HeaderValues(v, |t|);
    assert b[..7] == h[..7] && b[8..12] == h[8..12] && b[12..16] == h[12..16] by {
      assert b[..HEADER_SIZE] == h;
      assert b[..7] == b[..HEADER_SIZE][..7];
      assert b[8..12] == b[..HEADER_SIZE][8..12];
      assert b[12..16] == b[..HEADER_SIZE][12..16];
    }
  }

  lemma HeaderValues(v: int, count: nat)
    requires 0 <= v < 0x1_0000_0000 && count < 0x1_0000_0000
    ensures var h := EncodeHeader(v, count);
      h[..7] == MAGIC && FromLe32(h[8..12]) == v && FromLe32(h[12..16]) == count
  {
    var h := EncodeHeader(v, count);
    LeFieldsRoundTrip();
    assert h[8..12] == Le32(v) && h[12..16] == Le32(count);
  }

  /** What root looks like after loading: the same, except for its owner and mode. */
  function Reloaded(t: Nodes): Nodes
    requires |t| >= 1
  {
    t[0 := t[0].(owner := 0, mode := DIR_MODE)]
  }

  lemma ShapeFits(t: Nodes)
    requires Shape(t) && |t| < 0x8000_0000
    ensures AllFit(t)
  {
    forall i | 0 <= i < |t| ensures Fits(t[i]) { assert NodeOk(t[i]); }
  }

  lemma RecordsRoundTrip(t: Nodes, rest: seq<byte>)
    requires Shape(t) && |t| < 0x8000_0000 && AllFit(t)
    ensures var b := Encode(t, 2) + rest; Offset(2, |t|) <= |b| && DecodeRecords(b, 2, |t|) == t
  {
    var b := Encode(t, 2) + rest;
    forall i | 0 <= i < |t| ensures DecodeRecords(b, 2, |t|)[i] == t[i] {
      RecordAtOfImage(t, 2, rest, i);
      assert NodeOk(t[i]);
      RecordRoundTrip(t[i]);
    }
  }

  lemma RootRoundTrip(n: Node)
    requires RootOk(n)
    ensures FixRoot(n) == n.(owner := 0, mode := DIR_MODE)
  {
    assert Splice(n.name, 0, [SLASH, NUL]) == n.name;
  }

  /** Deserializing a serialized file system gives back every slot, except that root's owner
      and mode are reset; bytes after the image are ignored. */
  lemma SerializeRoundTrip(t: Nodes, rest: seq<byte>)
    requires Shape(t) && |t| < 0x8000_0000
    ensures AllFit(t) && Decode(Encode(t, 2) + rest, |t|) == Accepted(Reloaded(t))
  {
    ShapeFits(t);
    HeaderOfImage(t, 2, rest);
    RecordsRoundTrip(t, rest);
    RootRoundTrip(t[0]);
  }

  /** Loading a saved tree gives a tree with the same paths and files. */
  lemma ReloadedIsTree(t: Nodes)
    requires Tree(t)
    ensures Tree(Reloaded(t)) && Abs(Reloaded(t)) == Abs(t)[[] := Dir(0, DIR_MODE)]
  {
    assert RootOk(t[0]);
    EditRefines(t, Reloaded(t), 0);
  }

  function MigratedAll(t: Nodes): (u: Nodes)
    ensures |u| == |t|
  {
    seq(|t|, i requires 0 <= i < |t| => Migrated(t[i]))
  }

  /** The version 1 image of any table decodes like the version 2 image of that table with
      owner 0 and default modes, although its records have another size. */
  lemma Version1Migrates(t: Nodes)
    requires AllFit(t) && 1 <= |t| < 0x1_0000_0000
    ensures AllFit(MigratedAll(t)) && Decode(Encode(t, 1), |t|) == Decode(Encode(MigratedAll(t), 2), |t|)
  {
    var u := MigratedAll(t);
    HeaderOfImage(t, 1, []);
    HeaderOfImage(u, 2, []);
    var b, c := Encode(t, 1), Encode(u, 2);
    assert b + [] == b && c + [] == c;
    forall i | 0 <= i < |t| ensures DecodeRecords(b, 1, |t|)[i] == DecodeRecords(c, 2, |t|)[i] {
      RecordAtOfImage(t, 1, [], i);
      RecordAtOfImage(u, 2, [], i);
      RecordMigrates(t[i]);
    }
    assert DecodeRecords(b, 1, |t|) == DecodeRecords(c, 2, |t|);
  }

  /** The table a loaded image of version `v` gives. */
  function Restored(t: Nodes, v: int): (u: Nodes)
    requires |t| >= 1
    ensures |u| == |t|
  {
    Reloaded(if v == 1 then MigratedAll(t) else t)
  }

  lemma MigratedShape(t: Nodes)
    requires Shape(t)
    ensures Shape(MigratedAll(t))
  {
    var u := MigratedAll(t);
    forall i | 0 <= i < |u| ensures NodeOk(u[i]) { assert NodeOk(t[i]) && u[i] == Migrated(t[i]); }
  }

  lemma AppendNothing(b: seq<byte>)
    ensures b + [] == b
  {
  }

  lemma Version2RoundTrip(t: Nodes)
    requires Shape(t) && |t| < 0x8000_0000
    ensures AllFit(t) && Decode(Encode(t, 2), |t|) == Accepted(Reloaded(t))
  {
    SerializeRoundTrip(t, []);
    AppendNothing(Encode(t, 2));
  }

  lemma Version1RoundTrip(t: Nodes, u: Nodes)
    requires Shape(t) && |t| < 0x8000_0000 && u == MigratedAll(t)
    ensures AllFit(t) && Decode(Encode(t, 1), |t|) == Accepted(Reloaded(u))
  {
    ShapeFits(t);
    MigratedShape(t);
    Version1Migrates(t);
    Version2RoundTrip(u);
  }

  /** The image of a file system in either version decodes to its restored table. */
  lemma ImageRoundTrip(t: Nodes, v: int)
    requires Shape(t) && |t| < 0x8000_0000 && 1 <= v <= 2
    ensures AllFit(t) && Decode(Encode(t, v), |t|) == Accepted(Restored(t, v))
  {
    if v == 1 {
      Version1RoundTrip(t, MigratedAll(t));
    } else {
      Version2RoundTrip(t);
    }
  }

  function DefaultEntry(e: Entry): Entry {
    match e
    case Dir(_, _) => Dir(0, DIR_MODE)
    case File(_, _, content) => File(0, FILE_MODE, content)
  }

  /** Migration keeps every path, kind and content, and gives owner 0 and the default modes. */
  lemma MigratedIsTree(t: Nodes)
    requires Tree(t)
    ensures Tree(MigratedAll(t))
    ensures Abs(MigratedAll(t)) == map p | p in Abs(t) :: DefaultEntry(Abs(t)[p])
  {
    var u := MigratedAll(t);
    forall i | 0 <= i < |t| ensures SameNode(t[i], u[i]) { assert NodeOk(t[i]) && u[i] == Migrated(t[i]); }
    SameTree(t, u);
    var m := map p | p in Abs(t) :: DefaultEntry(Abs(t)[p]);
    forall i: nat ensures EntryAt(u, m, i) {
      if Live(u, i) {
        PathFrame(t, u, i);
        AbsAt(t, i);
        assert SameNode(t[i], u[i]);
      }
    }
    forall p ensures FromSlot(u, m, p) {
      if p in m {
        var i := AbsSlot(t, p);
        PathFrame(t, u, i);
        assert SameNode(t[i], u[i]);
      }
    }
    AbsUnique(u, m);
  }

  /** Whatever the version, the restored table of a tree is a tree. */
  lemma RestoredIsTree(t: Nodes, v: int)
    requires Tree(t)
    ensures Tree(Restored(t, v))
    ensures Abs(Restored(t, v))
      == (if v == 1 then map p | p in Abs(t) :: DefaultEntry(Abs(t)[p]) else Abs(t))[[] := Dir(0, DIR_MODE)]
  {
    if v == 1 {
      MigratedIsTree(t);
      ReloadedIsTree(MigratedAll(t));
    } else {
      ReloadedIsTree(t);
    }
  }

  /** The size of the image of the real table. */
  lemma ImageSize(t: Nodes)
    requires AllFit(t) && |t| == FS_MAX_NODES
    ensures |Encode(t, 2)| == 16 + 128 * 4142 == 530192
  {
    OffsetClosed(2, 128);
  }
}
