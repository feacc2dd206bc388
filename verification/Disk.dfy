/** kernel/disk.c over a disk whose sector reads and writes may fail. */
module Disk {
  import opened Bytes
  import opened Table
  import opened PathMap
  import opened Refinement
  import opened KString
  import opened Image
  import opened DiskLayout
  import opened FileSystemModule

  /** The selected device, as `ata_read_sector` and `ata_write_sector` present it: any
      transfer may fail, and a failed write may leave anything in its sector. `faults` counts the
      transfers that failed on a sector the disk has. */
  class Ata {
    const sectors: array<Sector>
    ghost var faults: nat

    constructor (content: seq<Sector>)
      ensures fresh(sectors) && sectors[..] == content
    {
      sectors := new Sector[|content|](i requires 0 <= i < |content| => content[i]);
    }

    method ReadSector(lba: nat) returns (ok: bool, s: Sector)
      modifies this`faults
      ensures ok ==> lba < sectors.Length && s == sectors[lba] && faults == old(faults)
      ensures !ok ==> faults == old(faults) + if lba < sectors.Length then 1 else 0
    {
      ok := *;
      s := Zeros(SECTOR_SIZE);
      if lba >= sectors.Length { return false, s; }
      if ok { s := sectors[lba]; } else { faults := faults + 1; }
    }

    method WriteSector(lba: nat, s: Sector) returns (ok: bool)
      modifies this`faults, sectors
      ensures ok ==> lba < sectors.Length && sectors[..] == old(sectors[..])[lba := s] && faults == old(faults)
      ensures !ok ==> faults == old(faults) + if lba < sectors.Length then 1 else 0
      ensures SameOutside(old(sectors[..]), sectors[..], lba, lba + 1)
    {
      ok := *;
      if lba >= sectors.Length { return false; }
      if ok {
        sectors[lba] := s;
      } else {
        faults := faults + 1;
        var junk: Sector := *;
        sectors[lba] := junk;
      }
    }

    /** Writing `data` from sector `first` on, one sector at a time: sector number `i`. */
    method WriteNext(first: nat, i: nat, s: Sector, ghost data: seq<byte>) returns (ok: bool)
      requires SECTOR_SIZE * i + SECTOR_SIZE <= |data| && s == data[SECTOR_SIZE * i..SECTOR_SIZE * i + SECTOR_SIZE]
      requires i > 0 ==> first + i <= sectors.Length && Flat(sectors[..], first, i) == data[..SECTOR_SIZE * i]
      modifies this`faults, sectors
      ensures faults == old(faults) + if !ok && first + i < sectors.Length then 1 else 0
      ensures SameOutside(old(sectors[..]), sectors[..], first + i, first + i + 1)
      ensures ok ==> first + i < sectors.Length && Flat(sectors[..], first, i + 1) == data[..SECTOR_SIZE * (i + 1)]
    {
      ghost var before := sectors[..];
      ok := WriteSector(first + i, s);
      if ok {
        NextChunk(data, i);
        FlatFrame(before, sectors[..], first, i);
      }
    }
  }

  lemma NextChunk(data: seq<byte>, i: nat)
    requires SECTOR_SIZE * i + SECTOR_SIZE <= |data|
    ensures data[..SECTOR_SIZE * (i + 1)]
         == data[..SECTOR_SIZE * i] + data[SECTOR_SIZE * i..SECTOR_SIZE * i + SECTOR_SIZE]
  {
  }

  datatype Error =
    | Ok | DiskUnavailable | AtaError | DiskTooSmall | BootSectorMissing | InvalidKernelBounds | KernelTooLarge
    | NotInstalledError | InvalidPayloadSize | ChecksumMismatch | DecodeFailed | EncodeFailed

  /** The error `disk_load_fs` reports for what the disk holds. */
  function Report(r: LoadResult): Error {
    match r
    case Unreadable => AtaError
    case NotInstalled => NotInstalledError
    case BadSize => InvalidPayloadSize
    case BadChecksum => ChecksumMismatch
    case Undecodable(_) => DecodeFailed
    case Loaded(_) => Ok
  }

  /** A kernel and the zeros behind it in its last sector. */
  function Padded(kernel: seq<byte>, count: nat): (b: seq<byte>)
    requires count == SectorCount(|kernel|)
    ensures |b| == SECTOR_SIZE * count && b[..|kernel|] == kernel
  {
    kernel + Zeros(SECTOR_SIZE * count - |kernel|)
  }

  /** `checksum_bytes`: the sum is kept in 32 bits. */
  method ChecksumBytes(data: array<byte>, len: nat) returns (sum: int)
    requires len <= data.Length
    ensures sum == Checksum(data[..len])
  {
    sum := 0;
    for i := 0 to len
      invariant sum == Checksum(data[..i])
    {
      assert data[..i + 1][..i] == data[..i];
      sum := (sum + data[i] as int) % 0x1_0000_0000;
    }
  }

  class DiskDriver {
    const ata: Ata
    const fs: FileSystem
    const sector: array<byte>    // g_sector
    const payload: array<byte>   // g_payload
    var available: bool          // a disk is selected
    var lastError: Error

    ghost predicate Valid()
      reads this
    {
      && sector.Length == SECTOR_SIZE && payload.Length == DISK_PAYLOAD_MAX && sector != payload
      && 1 <= fs.nodes.Length < 0x8000_0000
    }

    constructor (ata: Ata, fs: FileSystem, available: bool)
      requires 1 <= fs.nodes.Length < 0x8000_0000
      ensures Valid() && this.ata == ata && this.fs == fs && this.available == available
      ensures fresh(sector) && fresh(payload)
    {
      this.ata, this.fs, this.available, this.lastError := ata, fs, available, Ok;
      sector := new byte[SECTOR_SIZE](_ => 0);
      payload := new byte[DISK_PAYLOAD_MAX](_ => 0);
    }

    /** `disk_load_fs`: on success the table is what the disk holds; on failure it is as before,
        or freshly initialised when the image has no root directory, never half-decoded. Unless
        a sector could not be read, the outcome is what the disk holds. */
    method LoadFs() returns (rc: int)
      requires Valid()
      modifies this`lastError, payload, fs.nodes, ata`faults
      ensures Valid() && (rc == 0 || rc == -1) && (rc == 0 <==> lastError == Ok)
      ensures LoadEffect(ata.sectors[..], old(fs.nodes[..]), rc == 0, fs.nodes[..])
      ensures lastError == DiskUnavailable <==> !available
      ensures available && (lastError != AtaError || ata.faults == old(ata.faults)) ==>
        var r := LoadOf(ata.sectors[..], fs.nodes.Length);
        && lastError == Report(r)
        && (rc == 0 <==> r.Loaded?)
        && (lastError == AtaError <==> r == Unreadable)
        && (lastError == NotInstalledError <==> r == NotInstalled)
        && (lastError == InvalidPayloadSize <==> r == BadSize)
        && (lastError == ChecksumMismatch <==> r == BadChecksum)
        && (lastError == DecodeFailed <==> r.Undecodable?)
    {
      var size := FetchPayload();
      if size == 0 { return -1; }
      var decoded := fs.Deserialize(payload[..size]);
      if decoded != 0 { lastError := DecodeFailed; return -1; }
      lastError := Ok;
      return 0;
    }

    /** The part of `disk_load_fs` before decoding: the size of a payload whose checksum
        agrees, or 0 with the error set. */
    method FetchPayload() returns (size: nat)
      requires Valid()
      modifies this`lastError, payload, ata`faults
      ensures size <= DISK_PAYLOAD_MAX
      ensures size > 0 ==> available
      ensures size > 0 ==> LoadOf(ata.sectors[..], fs.nodes.Length) == Outcome(Decode(payload[..size], fs.nodes.Length))
      ensures size == 0 ==>
        lastError in {DiskUnavailable, AtaError, NotInstalledError, InvalidPayloadSize, ChecksumMismatch}
      ensures size == 0 ==> (lastError == DiskUnavailable <==> !available)
      ensures size == 0 && available && (lastError != AtaError || ata.faults == old(ata.faults)) ==>
        lastError == Report(LoadOf(ata.sectors[..], fs.nodes.Length))
    {
      if !available { lastError := DiskUnavailable; return 0; }
      var ok, h := ReadDiskHeader();
      if !ok { return 0; }
      size := FromLe32(h[12..16]);
      ok := ReadPayload(size);
      if !ok { lastError := AtaError; return 0; }
      var sum := ChecksumBytes(payload, size);
      if sum != FromLe32(h[16..20]) { lastError := ChecksumMismatch; return 0; }
    }

    /** Reading and checking the header sector. */
    method ReadDiskHeader() returns (ok: bool, h: Sector)
      requires Valid()
      modifies this`lastError, ata`faults
      ensures ok ==> DISK_START_LBA < ata.sectors.Length && h == ata.sectors[DISK_START_LBA]
      ensures ok ==> ata.faults == old(ata.faults)
      ensures ok ==> h[..7] == DISK_MAGIC && FromLe32(h[8..12]) == 1 && 0 < FromLe32(h[12..16]) <= DISK_PAYLOAD_MAX
      ensures !ok ==> lastError in {AtaError, NotInstalledError, InvalidPayloadSize}
      ensures !ok && (lastError != AtaError || ata.faults == old(ata.faults)) ==>
        lastError == Report(LoadOf(ata.sectors[..], fs.nodes.Length))
    {
      ok, h := ata.ReadSector(DISK_START_LBA);
      if !ok { lastError := AtaError; return; }
      var e := CheckHeader(h);
      if e != Ok { lastError := e; return false, h; }
    }

    static method CheckHeader(h: Sector) returns (e: Error)
      ensures e == if h[..7] != DISK_MAGIC || FromLe32(h[8..12]) != 1 then NotInstalledError
                   else if !(0 < FromLe32(h[12..16]) <= DISK_PAYLOAD_MAX) then InvalidPayloadSize
                   else Ok
    {
      var magic := KStrncmp(h[..8], DISK_MAGIC + [NUL], 7);
      DiskMagicMatches(h);
      if magic != 0 || FromLe32(h[8..12]) != 1 { return NotInstalledError; }
      var size := FromLe32(h[12..16]);
      if size == 0 || size > DISK_PAYLOAD_MAX { return InvalidPayloadSize; }
      return Ok;
    }

    /** The sector loop of `disk_load_fs`: it covers exactly the payload and stays inside the
        buffer for every accepted size. */
    method ReadPayload(size: nat) returns (ok: bool)
      requires Valid() && 0 < size <= DISK_PAYLOAD_MAX
      modifies payload, ata`faults
      ensures ok ==> DISK_START_LBA + 1 + SectorCount(size) <= ata.sectors.Length
      ensures ata.faults >= old(ata.faults)
      ensures !ok && ata.faults == old(ata.faults) ==> DISK_START_LBA + 1 + SectorCount(size) > ata.sectors.Length
      ensures ok ==> payload[..size] == Payload(ata.sectors[..], size)
    {
      var count := (size + SECTOR_SIZE - 1) / SECTOR_SIZE;
      var i := 0;
      while i < count
        invariant 0 <= i <= count && (i > 0 ==> DISK_START_LBA + 1 + i <= ata.sectors.Length)
        invariant ata.faults == old(ata.faults)
        invariant i > 0 ==> payload[..SECTOR_SIZE * i] == Flat(ata.sectors[..], DISK_START_LBA + 1, i)
      {
        var read, s := ata.ReadSector(DISK_START_LBA + 1 + i);
        if !read { return false; }
        FileSystem.Append(payload, SECTOR_SIZE * i, s);
        i := i + 1;
      }
      assert payload[..size] == payload[..SECTOR_SIZE * count][..size];
      return true;
    }

    /** `disk_save_fs`: writes only the file system region; on success the disk holds a complete
        save of the table, which is not changed either way. */
    method SaveFs() returns (rc: int)
      requires Valid() && AllFit(fs.nodes[..])
      modifies this`lastError, sector, payload, ata.sectors, ata`faults
      ensures Valid() && (rc == 0 || rc == -1) && (rc == 0 <==> lastError == Ok)
      ensures SaveEffect(old(ata.sectors[..]), ata.sectors[..], rc == 0, Encode(fs.nodes[..], 2))
      ensures lastError in {Ok, DiskUnavailable, EncodeFailed, AtaError}
      ensures lastError == DiskUnavailable <==> !available
      ensures available && lastError == EncodeFailed <==> available && Offset(2, fs.nodes.Length) > DISK_PAYLOAD_MAX
      ensures lastError in {DiskUnavailable, EncodeFailed} ==> ata.sectors[..] == old(ata.sectors[..])
      ensures lastError == AtaError && ata.faults == old(ata.faults) ==>
        DISK_START_LBA + 1 + SectorCount(Offset(2, fs.nodes.Length)) > ata.sectors.Length
    {
      if !available { lastError := DiskUnavailable; return -1; }
      var size := fs.Serialize(payload, payload.Length);
      if size == 0 { lastError := EncodeFailed; return -1; }
      ghost var image := payload[..size];
      assert image == Encode(fs.nodes[..], 2);
      var sum := ChecksumBytes(payload, size);
      var ok := WriteSave(size, sum);
      if !ok { lastError := AtaError; return -1; }
      lastError := Ok;
      return 0;
    }

    /** The two writing steps of `disk_save_fs`: the header, then the payload. */
    method WriteSave(size: nat, sum: int) returns (ok: bool)
      requires Valid() && 0 < size <= DISK_PAYLOAD_MAX && sum == Checksum(payload[..size])
      modifies sector, ata.sectors, ata`faults
      ensures SaveEffect(old(ata.sectors[..]), ata.sectors[..], ok, payload[..size])
      ensures ata.faults >= old(ata.faults)
      ensures !ok && ata.faults == old(ata.faults) ==> DISK_START_LBA + 1 + SectorCount(size) > ata.sectors.Length
    {
      ok := WriteFields(DISK_START_LBA, DISK_MAGIC + [NUL] + Le32(1) + Le32(size) + Le32(sum));
      if !ok { return false; }
      ok := WritePayload(size);
    }

    /** `g_sector` cleared and filled from its start. */
    method FillSector(src: seq<byte>)
      requires Valid() && |src| <= SECTOR_SIZE
      modifies sector
      ensures sector[..] == src + Zeros(SECTOR_SIZE - |src|)
    {
      KMemset(sector, 0, 0, SECTOR_SIZE);
      KMemcpy(sector, 0, src);
    }

    /** A header sector: the fields, then zeros. */
    method WriteFields(lba: nat, fields: seq<byte>) returns (ok: bool)
      requires Valid() && |fields| == 20
      modifies sector, ata.sectors, ata`faults
      ensures ata.faults == old(ata.faults) + if !ok && lba < ata.sectors.Length then 1 else 0
      ensures SameOutside(old(ata.sectors[..]), ata.sectors[..], lba, lba + 1)
      ensures ok ==> lba < ata.sectors.Length && ata.sectors[lba][..20] == fields
    {
      FillSector(fields);
      ok := ata.WriteSector(lba, sector[..]);
    }

    /** The sector loop of `disk_save_fs`. */
    method WritePayload(size: nat) returns (ok: bool)
      requires Valid() && 0 < size <= DISK_PAYLOAD_MAX
      modifies ata.sectors, ata`faults
      ensures ata.faults >= old(ata.faults)
      ensures !ok && ata.faults == old(ata.faults) ==> DISK_START_LBA + 1 + SectorCount(size) > ata.sectors.Length
      ensures SameOutside(old(ata.sectors[..]), ata.sectors[..], DISK_START_LBA + 1, FS_REGION_END)
      ensures ok ==> DISK_START_LBA + 1 + SectorCount(size) <= ata.sectors.Length
      ensures ok ==> Payload(ata.sectors[..], size) == payload[..size]
    {
      var count := (size + SECTOR_SIZE - 1) / SECTOR_SIZE;
      var i := 0;
      while i < count
        invariant 0 <= i <= count && (i > 0 ==> DISK_START_LBA + 1 + i <= ata.sectors.Length)
        invariant SameOutside(old(ata.sectors[..]), ata.sectors[..], DISK_START_LBA + 1, FS_REGION_END)
        invariant ata.faults == old(ata.faults)
        invariant i > 0 ==> Flat(ata.sectors[..], DISK_START_LBA + 1, i) == payload[..SECTOR_SIZE * i]
      {
        var next := payload[SECTOR_SIZE * i..SECTOR_SIZE * i + SECTOR_SIZE];
        var written := ata.WriteNext(DISK_START_LBA + 1, i, next, payload[..]);
        if !written { return false; }
        i := i + 1;
      }
      assert payload[..SECTOR_SIZE * count][..size] == payload[..size];
      return true;
    }

    /** `disk_format_fs` */
    method FormatFs() returns (rc: int)
      requires Valid()
      modifies this`lastError, sector, payload, ata.sectors, fs.nodes, ata`faults
      ensures Valid() && (rc == 0 || rc == -1) && fs.nodes[..] == InitNodes(fs.nodes.Length)
      ensures AllFit(fs.nodes[..])
      ensures SaveEffect(old(ata.sectors[..]), ata.sectors[..], rc == 0, Encode(fs.nodes[..], 2))
      ensures rc == -1 && available && ata.faults == old(ata.faults) ==>
        Offset(2, fs.nodes.Length) > DISK_PAYLOAD_MAX
        || DISK_START_LBA + 1 + SectorCount(Offset(2, fs.nodes.Length)) > ata.sectors.Length
    {
      fs.Init();
      InitFits(fs.nodes.Length);
      rc := SaveFs();
      if rc != 0 { return -1; }
      lastError := Ok;
      return 0;
    }

    /** `disk_install_system`. `capacity` is the sector count `disk_get_info` reports, 0 when it
        fails or does not know. Writes only the kernel region; success is a complete installation. */
    method InstallSystem(kernel: seq<byte>, entry: nat, boot: seq<byte>, capacity: nat) returns (rc: int)
      requires Valid() && |kernel| < 0x1_0000_0000
      modifies this`lastError, sector, ata.sectors, ata`faults
      ensures Valid() && (rc == 0 || rc == -1) && (rc == 0 <==> lastError == Ok)
      ensures InstallEffect(old(ata.sectors[..]), ata.sectors[..], rc == 0, kernel, entry, boot)
      ensures rc == -1 && lastError != AtaError ==> ata.sectors[..] == old(ata.sectors[..])
      ensures lastError in {Ok, AtaError} <==>
        available && !(0 < capacity < 6144) && |boot| >= 512 && entry < |kernel| <= 1920 * 512
      ensures lastError == DiskUnavailable <==> !available
      ensures lastError == DiskTooSmall <==> available && 0 < capacity < 6144
      ensures lastError == BootSectorMissing <==> available && !(0 < capacity < 6144) && |boot| < 512
      ensures lastError == InvalidKernelBounds <==>
        available && !(0 < capacity < 6144) && |boot| >= 512 && entry >= |kernel|
      ensures lastError == KernelTooLarge <==>
        available && !(0 < capacity < 6144) && |boot| >= 512 && entry < |kernel| && |kernel| > 1920 * 512
      ensures lastError == AtaError && ata.faults == old(ata.faults) ==>
        KERNEL_LBA_START + SectorCount(|kernel|) > ata.sectors.Length
    {
      if !available { lastError := DiskUnavailable; return -1; }
      if 0 < capacity < DISK_START_LBA + DISK_TOTAL_SECTORS { lastError := DiskTooSmall; return -1; }
      if |boot| < SECTOR_SIZE { lastError := BootSectorMissing; return -1; }
      var size := |kernel|;
      if size == 0 || entry >= size { lastError := InvalidKernelBounds; return -1; }
      var count := (size + SECTOR_SIZE - 1) / SECTOR_SIZE;
      if count == 0 || count > MAX_BOOT_KERNEL_SECTORS { lastError := KernelTooLarge; return -1; }
      KMemcpy(sector, 0, boot[..SECTOR_SIZE]);
      var ok := ata.WriteSector(0, sector[..]);
      if !ok { lastError := AtaError; return -1; }
      ok := WriteFields(BOOT_INFO_LBA, BOOT_MAGIC + Le32(size) + Le32(count) + Le32(entry));
      if !ok { lastError := AtaError; return -1; }
      ok := WriteKernel(kernel, count);
      if !ok { lastError := AtaError; return -1; }
      lastError := Ok;
      return 0;
    }

    /** The sector loop of `disk_install_system`; the last sector is padded with zeros. */
    method WriteKernel(kernel: seq<byte>, count: nat) returns (ok: bool)
      requires Valid() && 0 < count == SectorCount(|kernel|) <= MAX_BOOT_KERNEL_SECTORS
      modifies sector, ata.sectors, ata`faults
      ensures ata.faults >= old(ata.faults)
      ensures !ok && ata.faults == old(ata.faults) ==> KERNEL_LBA_START + count > ata.sectors.Length
      ensures SameOutside(old(ata.sectors[..]), ata.sectors[..], KERNEL_LBA_START, KERNEL_REGION_END)
      ensures ok ==> KERNEL_LBA_START + count <= ata.sectors.Length
      ensures ok ==> Flat(ata.sectors[..], KERNEL_LBA_START, count)[..|kernel|] == kernel
    {
      ghost var padded := Padded(kernel, count);
      var i := 0;
      while i < count
        invariant 0 <= i <= count && (i > 0 ==> KERNEL_LBA_START + i <= ata.sectors.Length)
        invariant SameOutside(old(ata.sectors[..]), ata.sectors[..], KERNEL_LBA_START, KERNEL_REGION_END)
        invariant ata.faults == old(ata.faults)
        invariant i > 0 ==> Flat(ata.sectors[..], KERNEL_LBA_START, i) == padded[..SECTOR_SIZE * i]
      {
        FillChunk(kernel, i, count);
        var written := ata.WriteNext(KERNEL_LBA_START, i, sector[..], padded);
        if !written { return false; }
        i := i + 1;
      }
      assert padded[..SECTOR_SIZE * count] == padded;
      return true;
    }

    /** `g_sector` filled with sector number `i` of the kernel, padded with zeros. */
    method FillChunk(kernel: seq<byte>, i: nat, count: nat)
      requires Valid() && i < count == SectorCount(|kernel|)
      modifies sector
      ensures sector[..] == Padded(kernel, count)[SECTOR_SIZE * i..SECTOR_SIZE * i + SECTOR_SIZE]
    {
      var offset := i * SECTOR_SIZE;
      var remain := |kernel| - offset;
      var chunk := if remain >= SECTOR_SIZE then SECTOR_SIZE else remain;
      FillSector(kernel[offset..offset + chunk]);
    }
  }

  /** Over any history of installs and saves: the tree the last successful save wrote loads with
      the same paths, contents, owners and modes, root's owner and mode excepted. */
  lemma LastSaveLoads(ds: seq<Sectors>, es: seq<Event>, j: nat, t: Nodes)
    requires History(ds, es) && j < |es| && es[j].Save? && es[j].ok
    requires Tree(t) && |t| < 0x8000_0000 && AllFit(t) && es[j].payload == Encode(t, 2)
    requires forall k :: j < k < |es| && es[k].Save? ==> ds[k + 1] == ds[k]
    ensures LoadOf(ds[|es|], |t|) == Loaded(Reloaded(t))
    ensures Tree(Reloaded(t)) && Abs(Reloaded(t)) == Abs(t)[[] := Dir(0, DIR_MODE)]
  {
    LastSaveSurvives(ds, es, j);
    SaveThenLoad(ds[|es|], t, 2);
    ReloadedIsTree(t);
  }

  lemma DiskMagicMatches(h: Sector)
    ensures CStr(h[..8][..7]) == CStr((DISK_MAGIC + [NUL])[..7]) <==> h[..7] == DISK_MAGIC
  {
    assert h[..8][..7] == h[..7] && (DISK_MAGIC + [NUL])[..7] == DISK_MAGIC;
    IndexOfUnique(DISK_MAGIC, NUL, 7);
    assert DISK_MAGIC[..7] == DISK_MAGIC;
    if CStr(h[..7]) == DISK_MAGIC {
      assert h[..7][..7] == h[..7];
    }
  }

  lemma InitFits(n: nat)
    requires n >= 1
    ensures AllFit(InitNodes(n))
  {
  }
}
