/** The formats of kernel/fs.c and kernel/disk.c byte by byte, with the numbers of the source:
    what every byte of an image, a save and an installation is, and what is read from which. */
module FormatLaws {
  import opened Bytes
  import opened Table
  import opened Image
  import opened DiskLayout

  /** Little-endian numbers in a buffer. */
  function Num2(b: seq<byte>, k: nat): int
    requires k + 2 <= |b|
  {
    (b[k] as int) + 256 * (b[k + 1] as int)
  }

  function Num4(b: seq<byte>, k: nat): int
    requires k + 4 <= |b|
  {
    (b[k] as int) + 256 * (b[k + 1] as int) + 65536 * (b[k + 2] as int) + 16777216 * (b[k + 3] as int)
  }

  lemma Le32IsNum(x: int, b: seq<byte>, k: nat)
    requires 0 <= x < 0x1_0000_0000 && k + 4 <= |b| && b[k..k + 4] == Le32(x)
    ensures Num4(b, k) == x
  {
    var l := Le32(x);
    assert b[k] == l[0] && b[k + 1] == l[1] && b[k + 2] == l[2] && b[k + 3] == l[3] by {
      var s := b[k..k + 4];
      assert s[0] == b[k] && s[1] == b[k + 1] && s[2] == b[k + 2] && s[3] == b[k + 3];
    }
    Le32RoundTrip(x);
  }

  lemma Le16IsNum(x: int, b: seq<byte>, k: nat)
    requires 0 <= x < 0x1_0000 && k + 2 <= |b| && b[k..k + 2] == Le16(x)
    ensures Num2(b, k) == x
  {
    assert b[k..k + 2][0] == b[k] && b[k..k + 2][1] == b[k + 1];
  }

  lemma NumIsLe32(b: seq<byte>, k: nat)
    requires k + 4 <= |b|
    ensures FromLe32(b[k..k + 4]) == Num4(b, k)
  {
  }

  // ---- the image -----------------------------------------------------------------------------

  /** The 16 bytes before the records: "FURFSv1", NUL, version, slot count. */
  lemma HeaderBytes(v: int, count: nat)
    requires 0 <= v < 0x1_0000_0000 && count < 0x1_0000_0000
    ensures var h := EncodeHeader(v, count);
      && |h| == 16 && h[..8] == [70, 85, 82, 70, 83, 118, 49, 0]
      && Num4(h, 8) == v && Num4(h, 12) == count
  {
    var h := EncodeHeader(v, count);
    assert h[8..12] == Le32(v) && h[12..16] == Le32(count);
    Le32IsNum(v, h, 8);
    Le32IsNum(count, h, 12);
  }

  /** Where every field of a slot is in its record: 4142 bytes, or 4138 in version 1, which has no
      owner and mode. */
  predicate IsRecord(b: seq<byte>, n: Node, v: int) {
    var k := if v == 1 then 6 else 10;
    && |b| == k + 4132
    && b[0] == (if n.used then 1 else 0) && b[1] == (if n.isDir then 1 else 0)
    && Num4(b, 2) == (if n.parent < 0 then n.parent + 0x1_0000_0000 else n.parent)
    && (v != 1 ==> Num2(b, 6) == n.owner && Num2(b, 8) == n.mode)
    && Num4(b, k) == n.size && b[k + 4..k + 36] == n.name && b[k + 36..] == n.data
  }

  lemma RecordBytes(n: Node, v: int)
    requires Fits(n)
    ensures IsRecord(EncodeRecord(n, v), n, v)
  {
    var b, k := EncodeRecord(n, v), if v == 1 then 6 else 10;
    FieldsOfRecord(n, v);
    Le32IsNum(if n.parent < 0 then n.parent + 0x1_0000_0000 else n.parent, b, 2);
    Le32IsNum(n.size, b, k);
    if v != 1 {
      Le16IsNum(n.owner, b, 6);
      Le16IsNum(n.mode, b, 8);
    }
  }

  lemma PrefixNumbers(b: seq<byte>, h: seq<byte>)
    requires |h| == 16 <= |b| && b[..16] == h
    ensures b[..8] == h[..8] && Num4(b, 8) == Num4(h, 8) && Num4(b, 12) == Num4(h, 12)
  {
    assert forall k :: 0 <= k < 16 ==> b[k] == h[k];
  }

  /** The image begins with the header and has no other bytes than its records. */
  lemma ImageHeader(t: Nodes, v: int)
    requires AllFit(t) && 1 <= v <= 2 && |t| < 0x1_0000_0000
    ensures var b := Encode(t, v);
      && |b| == 16 + |t| * (if v == 1 then 4138 else 4142)
      && b[..8] == [70, 85, 82, 70, 83, 118, 49, 0] && Num4(b, 8) == v && Num4(b, 12) == |t|
  {
    OffsetClosed(v, |t|);
    HeaderBytes(v, |t|);
    HeaderInPrefix(t, v, |t|);
    PrefixNumbers(Encode(t, v), EncodeHeader(v, |t|));
  }

  lemma RecordPlace(b: seq<byte>, v: int, i: nat, count: nat)
    requires 1 <= v <= 2 && i < count && Offset(v, count) <= |b|
    ensures var size := if v == 1 then 4138 else 4142;
      && Offset(v, i + 1) <= |b| && 16 + i * size + size <= |b|
      && RecordAt(b, v, i) == b[16 + i * size..16 + i * size + size]
  {
    OffsetClosed(v, i);
    OffsetClosed(v, i + 1);
    OffsetMonotone(v, i + 1, count);
  }

  /** Record `i` of the image is at 16 + 4142 * i, or 16 + 4138 * i. */
  lemma ImageRecord(t: Nodes, v: int, i: nat)
    requires AllFit(t) && 1 <= v <= 2 && i < |t| < 0x1_0000_0000
    ensures var b, size := Encode(t, v), if v == 1 then 4138 else 4142;
      16 + i * size + size <= |b| && IsRecord(b[16 + i * size..16 + i * size + size], t[i], v)
  {
    RecordPlace(Encode(t, v), v, i, |t|);
    RecordAtOfImage(t, v, [], i);
    AppendNothing(Encode(t, v));
    RecordBytes(t[i], v);
  }

  /** What is read from the bytes of a record, whatever they are. */
  lemma SlotOfBytes(b: seq<byte>, v: int)
    requires |b| == if v == 1 then 4138 else 4142
    ensures var n, k := DecodeRecord(b, v), if v == 1 then 6 else 10;
      && n.used == (b[0] != 0) && n.isDir == (b[1] != 0)
      && n.parent == (if Num4(b, 2) < 0x8000_0000 then Num4(b, 2) else Num4(b, 2) - 0x1_0000_0000)
      && n.owner == (if v == 1 then 0 else Num2(b, 6))
      && n.mode == (if v != 1 then Num2(b, 8) % 512 else if b[1] != 0 then 493 else 420)
      && n.size == (if Num4(b, k) <= 4095 then Num4(b, k) else 4095)
      && n.name == b[k + 4..k + 36][31 := 0] && n.data == b[k + 36..][n.size := 0]
  {
    NumIsLe32(b, 2);
    NumIsLe32(b, if v == 1 then 6 else 10);
  }

  /** An image is rejected, without a change, exactly when it is too short, or its magic, version
      or slot count is wrong; otherwise record 0 must be a live directory. */
  lemma DecodeExactly(b: seq<byte>, count: nat)
    requires count >= 1
    ensures Decode(b, count) != Rejected <==>
      && |b| >= 16 && b[..7] == [70, 85, 82, 70, 83, 118, 49] && Num4(b, 12) == count
      && ((Num4(b, 8) == 1 && |b| >= 16 + 4138 * count) || (Num4(b, 8) == 2 && |b| >= 16 + 4142 * count))
    ensures Decode(b, count) != Rejected ==>
      |b| >= 18 && (Decode(b, count) == BadRoot <==> b[16] == 0 || b[17] == 0)
  {
    if |b| >= 16 {
      NumIsLe32(b, 8);
      NumIsLe32(b, 12);
      var v := Num4(b, 8);
      OffsetClosed(v, count);
      if GoodHeader(b, count) {
        OffsetClosed(v, 1);
        OffsetMonotone(v, 1, count);
        assert RecordAt(b, v, 0)[0] == b[16] && RecordAt(b, v, 0)[1] == b[17];
        SlotOfBytes(RecordAt(b, v, 0), v);
      }
    }
  }

  lemma RootFixed(n: Node)
    requires Buffers(n)
    ensures FixRoot(n) == n.(used := true, isDir := true, parent := 0, owner := 0, mode := 493,
                             name := n.name[0 := 47][1 := 0])
  {
    assert Splice(n.name, 0, [SLASH, NUL]) == n.name[0 := 47][1 := 0];
  }

  /** Slot `i` of an accepted image comes from record `i`; slot 0 is made the root. */
  lemma AcceptedSlots(b: seq<byte>, count: nat, i: nat)
    requires i < count && Decode(b, count).Accepted?
    ensures |b| >= 16 && 1 <= Num4(b, 8) <= 2
    ensures var size := if Num4(b, 8) == 1 then 4138 else 4142;
      && |b| >= 16 + i * size + size
      && var n := DecodeRecord(b[16 + i * size..16 + i * size + size], Num4(b, 8));
      Decode(b, count).nodes[i] == if i > 0 then n else FixRoot(n)
  {
    NumIsLe32(b, 8);
    RecordPlace(b, Num4(b, 8), i, count);
  }

  // ---- the disk --------------------------------------------------------------------------------

  lemma {:induction false} SectorByte(d: Sectors, first: nat, n: nat, k: nat)
    requires first + n <= |d| && k < 512 * n
    ensures Flat(d, first, n)[k] == d[first + k / 512][k % 512]
  {
    if k < 512 * (n - 1) {
      SectorByte(d, first, n - 1, k);
    } else {
      assert k / 512 == n - 1 && k % 512 == k - 512 * (n - 1);
    }
  }

  /** The checksum adds up the bytes. */
  lemma SumAdds(b: seq<byte>, x: byte)
    ensures Sum([]) == 0 && Sum(b + [x]) == Sum(b) + x as int
    ensures Checksum(b) == Sum(b) % 0x1_0000_0000
  {
    assert (b + [x])[..|b|] == b;
  }

  /** A complete save: "FURDSK1", NUL, version 1, size and checksum at the start of sector 2048,
      and the payload from sector 2049 on. */
  lemma StoredBytes(d: Sectors, payload: seq<byte>, k: nat)
    requires DiskLayout.Stored(d, payload) && k < |payload|
    ensures 1 <= |payload| <= 4095 * 512 && 2049 + k / 512 < |d|
    ensures var h := d[2048];
      && h[..8] == [70, 85, 82, 68, 83, 75, 49, 0] && Num4(h, 8) == 1
      && Num4(h, 12) == |payload| && Num4(h, 16) == Sum(payload) % 0x1_0000_0000
    ensures d[2049 + k / 512][k % 512] == payload[k]
  {
    var h, g, n := d[2048], DiskHeader(payload), SectorCount(|payload|);
    assert h[..8] == h[..20][..8] == g[..8];
    HeaderFields(h, payload);
    NumIsLe32(h, 8);
    NumIsLe32(h, 12);
    NumIsLe32(h, 16);
    SectorByte(d, 2049, n, k);
    assert Flat(d, 2049, n)[k] == Flat(d, 2049, n)[..|payload|][k];
  }

  predicate HeaderOk(h: Sector) {
    h[..7] == [70, 85, 82, 68, 83, 75, 49] && Num4(h, 8) == 1
  }

  /** Which disk gives which outcome of a load; in the last case the payload decides. */
  lemma LoadExactly(d: Sectors, count: nat)
    requires count >= 1
    ensures var r := LoadOf(d, count);
      if |d| <= 2048 then r == Unreadable
      else
        var h := d[2048];
        var size := Num4(h, 12);
        if !HeaderOk(h) then r == NotInstalled
        else if size == 0 || size > 4095 * 512 then r == BadSize
        else if 2049 + (size + 511) / 512 > |d| then r == Unreadable
        else
          var payload := Flat(d, 2049, (size + 511) / 512)[..size];
          if Sum(payload) % 0x1_0000_0000 != Num4(h, 16) then r == BadChecksum
          else
            match Decode(payload, count)
            case Rejected => r == Undecodable(false)
            case BadRoot => r == Undecodable(true)
            case Accepted(t) => r == Loaded(t)
  {
    if |d| > 2048 {
      NumIsLe32(d[2048], 8);
      NumIsLe32(d[2048], 12);
      NumIsLe32(d[2048], 16);
    }
  }

  /** A complete installation: the boot sector in sector 0, "FURBOOT1", size, sector count and entry
      offset at the start of sector 1, and the kernel from sector 2 on, at most 1920 sectors. */
  lemma InstalledBytes(d: Sectors, kernel: seq<byte>, entry: nat, boot: seq<byte>, k: nat)
    requires Installed(d, kernel, entry, boot) && k < |kernel|
    ensures entry < |kernel| <= 1920 * 512 && |boot| >= 512 && 2 + k / 512 < |d|
    ensures d[0] == boot[..512] && d[2 + k / 512][k % 512] == kernel[k]
    ensures var h := d[1];
      && h[..8] == [70, 85, 82, 66, 79, 79, 84, 49]
      && Num4(h, 8) == |kernel| && Num4(h, 12) == (|kernel| + 511) / 512 && Num4(h, 16) == entry
  {
    var h, n := d[1], SectorCount(|kernel|);
    BootInfoFields(h, |kernel|, n, entry);
    NumIsLe32(h, 8);
    NumIsLe32(h, 12);
    NumIsLe32(h, 16);
    SectorByte(d, 2, n, k);
    assert Flat(d, 2, n)[k] == Flat(d, 2, n)[..|kernel|][k];
  }

  /** The regions: an installation touches sectors 0 to 1921, a save 2048 to 6143. */
  lemma RegionsExactly(d: Sectors, e: Sectors, event: Event, k: nat)
    requires Step(d, e, event) && k < |d|
    ensures |e| == |d|
    ensures event.Install? && k >= 1922 ==> e[k] == d[k]
    ensures event.Save? && !(2048 <= k < 6144) ==> e[k] == d[k]
  {
  }
}
