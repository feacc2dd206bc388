/** What kernel/disk.c puts where on a disk of 512-byte sectors, and what can be read back. */
module DiskLayout {
  import opened Bytes
  import opened Table
  import opened Image

  const SECTOR_SIZE := 512
  const DISK_START_LBA := 2048
  const DISK_TOTAL_SECTORS := 4096
  const DISK_PAYLOAD_MAX := (DISK_TOTAL_SECTORS - 1) * SECTOR_SIZE
  const BOOT_INFO_LBA := 1
  const KERNEL_LBA_START := 2
  const MAX_BOOT_KERNEL_SECTORS := 1920
  const DISK_MAGIC: seq<byte> := [70, 85, 82, 68, 83, 75, 49]      // FURDSK1
  const BOOT_MAGIC: seq<byte> := [70, 85, 82, 66, 79, 79, 84, 49]  // FURBOOT1

  type Sector = s: seq<byte> | |s| == SECTOR_SIZE witness Zeros(SECTOR_SIZE)
  type Sectors = seq<Sector>

  /** Sectors needed for `n` bytes. */
  function SectorCount(n: nat): (k: nat)
    ensures SECTOR_SIZE * k >= n && (k > 0 ==> SECTOR_SIZE * (k - 1) < n)
  {
    (n + SECTOR_SIZE - 1) / SECTOR_SIZE
  }

  /** The bytes of `n` consecutive sectors. */
  function Flat(d: Sectors, first: nat, n: nat): (b: seq<byte>)
    requires first + n <= |d|
    ensures |b| == SECTOR_SIZE * n
  {
    if n == 0 then [] else Flat(d, first, n - 1) + d[first + n - 1]
  }

  lemma {:induction false} FlatFrame(d: Sectors, e: Sectors, first: nat, n: nat)
    requires first + n <= |d| && first + n <= |e|
    requires forall k :: first <= k < first + n ==> d[k] == e[k]
    ensures Flat(d, first, n) == Flat(e, first, n)
  {
    if n > 0 { FlatFrame(d, e, first, n - 1); }
  }

  /** Changing one byte of one sector changes that byte of the whole. */
  lemma {:induction false} FlatUpdate(d: Sectors, first: nat, n: nat, s: nat, j: nat, x: byte)
    requires first + n <= |d| && s < n && j < SECTOR_SIZE
    ensures Flat(d[first + s := d[first + s][j := x]], first, n) == Flat(d, first, n)[SECTOR_SIZE * s + j := x]
  {
    var e := d[first + s := d[first + s][j := x]];
    if s < n - 1 {
      FlatUpdate(d, first, n - 1, s, j, x);
    } else {
      FlatFrame(d, e, first, n - 1);
    }
  }

  // ---- checksum ----------------------------------------------------------------------------

  function Sum(b: seq<byte>): nat {
    if b == [] then 0 else Sum(b[..|b| - 1]) + b[|b| - 1] as int
  }

  /** The 32-bit sum `checksum_bytes` returns. */
  function Checksum(b: seq<byte>): int {
    Sum(b) % 0x1_0000_0000
  }

  lemma {:induction false} SumBound(b: seq<byte>)
    ensures Sum(b) <= 255 * |b|
  {
    if b != [] { SumBound(b[..|b| - 1]); }
  }

  /** On every payload the driver accepts the 32-bit sum does not wrap. */
  lemma ChecksumNeverWraps(b: seq<byte>)
    requires |b| <= DISK_PAYLOAD_MAX
    ensures Checksum(b) == Sum(b)
  {
    SumBound(b);
  }

  lemma {:induction false} SumUpdate(b: seq<byte>, k: nat, x: byte)
    requires k < |b|
    ensures Sum(b[k := x]) == Sum(b) - b[k] as int + x as int
  {
    var last := |b| - 1;
    if k < last {
      assert b[k := x][..last] == b[..last][k := x];
      SumUpdate(b[..last], k, x);
    } else {
      assert b[k := x][..last] == b[..last];
    }
  }

  // ---- the file system region --------------------------------------------------------------

  function DiskHeader(payload: seq<byte>): (b: seq<byte>)
    requires |payload| <= DISK_PAYLOAD_MAX
    ensures |b| == 20
  {
    DISK_MAGIC + [NUL] + Le32(1) + Le32(|payload|) + Le32(Checksum(payload))
  }

  function Payload(d: Sectors, size: nat): (b: seq<byte>)
    requires DISK_START_LBA + 1 + SectorCount(size) <= |d|
    ensures |b| == size
  {
    Flat(d, DISK_START_LBA + 1, SectorCount(size))[..size]
  }

  /** A complete save of `payload` is on the disk. */
  predicate Stored(d: Sectors, payload: seq<byte>) {
    && 0 < |payload| <= DISK_PAYLOAD_MAX
    && DISK_START_LBA + 1 + SectorCount(|payload|) <= |d|
    && d[DISK_START_LBA][..20] == DiskHeader(payload)
    && Payload(d, |payload|) == payload
  }

  datatype LoadResult =
    | Unreadable | NotInstalled | BadSize | BadChecksum
    | Undecodable(reset: bool) | Loaded(nodes: Nodes)

  function Outcome(r: Decoded): LoadResult {
    match r
    case Rejected => Undecodable(false)
    case BadRoot => Undecodable(true)
    case Accepted(t) => Loaded(t)
  }

  /** What `disk_load_fs` finds on a disk whose reads all succeed, for a table of `count` slots. */
  function LoadOf(d: Sectors, count: nat): LoadResult
    requires count >= 1
  {
    if |d| <= DISK_START_LBA then Unreadable
    else
      var h := d[DISK_START_LBA];
      var size := FromLe32(h[12..16]);
      if h[..7] != DISK_MAGIC || FromLe32(h[8..12]) != 1 then NotInstalled
      else if size == 0 || size > DISK_PAYLOAD_MAX then BadSize
      else if DISK_START_LBA + 1 + SectorCount(size) > |d| then Unreadable
      else if Checksum(Payload(d, size)) != FromLe32(h[16..20]) then BadChecksum
      else
        Outcome(Decode(Payload(d, size), count))
  }

  lemma HeaderFields(h: Sector, payload: seq<byte>)
    requires 0 < |payload| <= DISK_PAYLOAD_MAX && h[..20] == DiskHeader(payload)
    ensures h[..7] == DISK_MAGIC && FromLe32(h[8..12]) == 1
    ensures FromLe32(h[12..16]) == |payload| && FromLe32(h[16..20]) == Checksum(payload)
  {
    LeFieldsRoundTrip();
    var g := DiskHeader(payload);
    assert h[..7] == h[..20][..7] == g[..7] == DISK_MAGIC;
    assert h[8..12] == h[..20][8..12] == g[8..12] == Le32(1);
    assert h[12..16] == h[..20][12..16] == g[12..16] == Le32(|payload|);
    assert h[16..20] == h[..20][16..20] == g[16..20] == Le32(Checksum(payload));
  }

  /** A complete save of a file system loads as that file system, up to root's owner and mode;
      one of version 1, with owner 0 and default modes. */
  lemma SaveThenLoad(d: Sectors, t: Nodes, v: int)
    requires Shape(t) && |t| < 0x8000_0000 && 1 <= v <= 2 && AllFit(t) && Stored(d, Encode(t, v))
    ensures LoadOf(d, |t|) == Loaded(Restored(t, v))
  {
    HeaderFields(d[DISK_START_LBA], Encode(t, v));
    ImageRoundTrip(t, v);
  }

  /** What `disk_load_fs` leaves of table `t`: what the disk holds, or, when it fails, `t` or a
      fresh table for an image without a root directory, never anything half-decoded. */
  predicate LoadEffect(d: Sectors, t: Nodes, ok: bool, u: Nodes)
    requires |t| >= 1
  {
    if ok then LoadOf(d, |t|) == Loaded(u)
    else u == t || (LoadOf(d, |t|) == Undecodable(true) && u == InitNodes(|t|))
  }

  lemma PayloadUpdate(d: Sectors, size: nat, s: nat, j: nat, x: byte)
    requires DISK_START_LBA + 1 + SectorCount(size) <= |d| && j < SECTOR_SIZE && SECTOR_SIZE * s + j < size
    ensures s < SectorCount(size)
    ensures var lba := DISK_START_LBA + 1 + s;
      Payload(d[lba := d[lba][j := x]], size) == Payload(d, size)[SECTOR_SIZE * s + j := x]
  {
    assert s < SectorCount(size);
    FlatUpdate(d, DISK_START_LBA + 1, SectorCount(size), s, j, x);
    var f := Flat(d, DISK_START_LBA + 1, SectorCount(size));
    assert f[SECTOR_SIZE * s + j := x][..size] == f[..size][SECTOR_SIZE * s + j := x];
  }

  lemma SumDetects(b: seq<byte>, k: nat, x: byte)
    requires |b| <= DISK_PAYLOAD_MAX && k < |b| && x != b[k]
    ensures Checksum(b[k := x]) != Checksum(b)
  {
    SumUpdate(b, k, x);
    ChecksumNeverWraps(b);
    ChecksumNeverWraps(b[k := x]);
  }

  /** Changing any one byte of a saved payload makes every later load fail on the checksum. */
  lemma OneByteDetected(d: Sectors, payload: seq<byte>, s: nat, j: nat, x: byte, count: nat)
    requires Stored(d, payload) && count >= 1
    requires j < SECTOR_SIZE && SECTOR_SIZE * s + j < |payload|
    requires x != payload[SECTOR_SIZE * s + j]
    ensures s < SectorCount(|payload|)
    ensures var lba := DISK_START_LBA + 1 + s;
      LoadOf(d[lba := d[lba][j := x]], count) == BadChecksum
  {
    PayloadUpdate(d, |payload|, s, j, x);
    SumDetects(payload, SECTOR_SIZE * s + j, x);
    HeaderFields(d[DISK_START_LBA], payload);
  }

  // ---- the kernel region -------------------------------------------------------------------

  /** The first fields of `struct boot_info_sector`. */
  function BootInfo(size: nat, sectors: nat, entry: nat): (b: seq<byte>)
    requires size < 0x1_0000_0000 && sectors < 0x1_0000_0000 && entry < 0x1_0000_0000
    ensures |b| == 20
  {
    BOOT_MAGIC + Le32(size) + Le32(sectors) + Le32(entry)
  }

  lemma FieldOf(h: seq<byte>, b: seq<byte>, k: nat, x: int)
    requires |b| == 20 <= |h| && h[..20] == b && k + 4 <= 20 && 0 <= x < 0x1_0000_0000 && b[k..k + 4] == Le32(x)
    ensures FromLe32(h[k..k + 4]) == x
  {
    assert h[k..k + 4] == h[..20][k..k + 4];
    LeFieldsRoundTrip();
  }

  lemma BootInfoFields(h: Sector, size: nat, sectors: nat, entry: nat)
    requires size < 0x1_0000_0000 && sectors < 0x1_0000_0000 && entry < 0x1_0000_0000
    requires h[..20] == BootInfo(size, sectors, entry)
    ensures h[..8] == BOOT_MAGIC && FromLe32(h[8..12]) == size
    ensures FromLe32(h[12..16]) == sectors && FromLe32(h[16..20]) == entry
  {
    var b := BootInfo(size, sectors, entry);
    assert h[..8] == h[..20][..8] == b[..8] == BOOT_MAGIC;
    assert b[8..12] == Le32(size) && b[12..16] == Le32(sectors) && b[16..20] == Le32(entry);
    FieldOf(h, b, 8, size);
    FieldOf(h, b, 12, sectors);
    FieldOf(h, b, 16, entry);
  }

  /** A kernel `disk_install_system` accepts. */
  predicate Installable(kernel: seq<byte>, entry: nat) {
    entry < |kernel| && SectorCount(|kernel|) <= MAX_BOOT_KERNEL_SECTORS
  }

  /** A complete installation of `kernel` is on the disk. */
  predicate Installed(d: Sectors, kernel: seq<byte>, entry: nat, boot: seq<byte>) {
    && Installable(kernel, entry) && |boot| >= SECTOR_SIZE
    && KERNEL_LBA_START + SectorCount(|kernel|) <= |d|
    && d[0] == boot[..SECTOR_SIZE]
    && d[BOOT_INFO_LBA][..20] == BootInfo(|kernel|, SectorCount(|kernel|), entry)
    && Flat(d, KERNEL_LBA_START, SectorCount(|kernel|))[..|kernel|] == kernel
  }

  // ---- the regions do not interfere ----------------------------------------------------------

  predicate SameOutside(d: Sectors, e: Sectors, lo: nat, hi: nat) {
    |d| == |e| && forall k :: 0 <= k < |d| && !(lo <= k < hi) ==> d[k] == e[k]
  }

  const KERNEL_REGION_END := KERNEL_LBA_START + MAX_BOOT_KERNEL_SECTORS
  const FS_REGION_END := DISK_START_LBA + DISK_TOTAL_SECTORS

  /** The effect of `disk_install_system`, whether or not it succeeds. */
  predicate InstallEffect(d: Sectors, e: Sectors, ok: bool, kernel: seq<byte>, entry: nat, boot: seq<byte>) {
    SameOutside(d, e, 0, KERNEL_REGION_END) && (ok ==> Installed(e, kernel, entry, boot))
  }

  /** The effect of `disk_save_fs`, whether or not it succeeds. */
  predicate SaveEffect(d: Sectors, e: Sectors, ok: bool, payload: seq<byte>) {
    SameOutside(d, e, DISK_START_LBA, FS_REGION_END) && (ok ==> Stored(e, payload))
  }

  datatype Event =
    | Install(ok: bool, kernel: seq<byte>, entry: nat, boot: seq<byte>)
    | Save(ok: bool, payload: seq<byte>)

  predicate Step(d: Sectors, e: Sectors, event: Event) {
    match event
    case Install(ok, kernel, entry, boot) => InstallEffect(d, e, ok, kernel, entry, boot)
    case Save(ok, payload) => SaveEffect(d, e, ok, payload)
  }

  /** A history of the disk: `ds[k]` before and `ds[k + 1]` after event `k`. */
  predicate History(ds: seq<Sectors>, es: seq<Event>) {
    |ds| == |es| + 1 && forall k :: 0 <= k < |es| ==> Step(ds[k], ds[k + 1], es[k])
  }

  lemma InstalledFrame(d: Sectors, e: Sectors, kernel: seq<byte>, entry: nat, boot: seq<byte>)
    requires SameOutside(d, e, DISK_START_LBA, FS_REGION_END) && Installed(d, kernel, entry, boot)
    ensures Installed(e, kernel, entry, boot)
  {
    FlatFrame(d, e, KERNEL_LBA_START, SectorCount(|kernel|));
  }

  lemma StoredFrame(d: Sectors, e: Sectors, payload: seq<byte>)
    requires SameOutside(d, e, 0, KERNEL_REGION_END) && Stored(d, payload)
    ensures Stored(e, payload)
  {
    FlatFrame(d, e, DISK_START_LBA + 1, SectorCount(|payload|));
  }

  /** Over any history, the last installation that succeeded is still complete if no later one
      wrote anything, whatever saves succeeded or broke off in between. */
  lemma {:induction false} LastInstallSurvives(ds: seq<Sectors>, es: seq<Event>, j: nat)
    requires History(ds, es) && j < |es| && es[j].Install? && es[j].ok
    requires forall k :: j < k < |es| && es[k].Install? ==> ds[k + 1] == ds[k]
    ensures Installed(ds[|es|], es[j].kernel, es[j].entry, es[j].boot)
  {
    var last := |es| - 1;
    assert Step(ds[last], ds[last + 1], es[last]);
    if j < last {
      LastInstallSurvives(ds[..last + 1], es[..last], j);
      if es[last].Save? {
        InstalledFrame(ds[last], ds[last + 1], es[j].kernel, es[j].entry, es[j].boot);
      }
    }
  }

  /** Likewise the last save that succeeded still loads, whatever installations do. */
  lemma {:induction false} LastSaveSurvives(ds: seq<Sectors>, es: seq<Event>, j: nat)
    requires History(ds, es) && j < |es| && es[j].Save? && es[j].ok
    requires forall k :: j < k < |es| && es[k].Save? ==> ds[k + 1] == ds[k]
    ensures Stored(ds[|es|], es[j].payload)
  {
    var last := |es| - 1;
    assert Step(ds[last], ds[last + 1], es[last]);
    if j < last {
      LastSaveSurvives(ds[..last + 1], es[..last], j);
      if es[last].Install? {
        StoredFrame(ds[last], ds[last + 1], es[j].payload);
      }
    }
  }
}
