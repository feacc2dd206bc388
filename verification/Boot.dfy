/** boot/bootsect.S: reading the installed kernel back with 16-bit segment arithmetic, copying
    it above 1 MiB and jumping to it. */
module Boot {
  import opened Bytes
  import opened KString
  import opened DiskLayout
  import opened Disk
  import opened FormatLaws

  const BOOT_INFO_BUF := 0x600
  const BOOT_SECTOR := 0x7c00
  const LOAD_BUFFER := 0x1_0000
  const LOAD_BUFFER_SEG := 0x1000
  const LOAD_ADDR := 0x10_0000

  // ---- what a boot finds ---------------------------------------------------------------------

  datatype BootResult = CannotRead | InvalidInfo | Jumps(address: int, size: nat, loaded: seq<byte>)

  predicate GoodInfo(info: Sector) {
    var size, count := FromLe32(info[8..12]), FromLe32(info[12..16]);
    info[..8] == BOOT_MAGIC && size != 0 && 0 < count <= MAX_BOOT_KERNEL_SECTORS
  }

  /** The result of booting from a disk whose reads all succeed: the jump address, the number
      of bytes copied there and the sectors they are taken from. */
  function BootOf(d: Sectors): BootResult {
    if |d| <= BOOT_INFO_LBA then CannotRead
    else
      var info := d[BOOT_INFO_LBA];
      var count := FromLe32(info[12..16]);
      if !GoodInfo(info) then InvalidInfo
      else if KERNEL_LBA_START + count > |d| then CannotRead
      else Jumps((FromLe32(info[16..20]) + LOAD_ADDR) % 0x1_0000_0000, FromLe32(info[8..12]),
                 Flat(d, KERNEL_LBA_START, count))
  }

  /** Booting an installed disk takes exactly the kernel and jumps to its entry symbol, which
      the linker placed at 1 MiB plus the entry offset. */
  lemma InstalledBoots(d: Sectors, kernel: seq<byte>, entry: nat, boot: seq<byte>)
    requires Installed(d, kernel, entry, boot)
    ensures var r := BootOf(d);
      r.Jumps? && r.address == LOAD_ADDR + entry && r.size == |kernel| <= |r.loaded|
      && r.loaded[..r.size] == kernel
  {
    BootInfoFields(d[BOOT_INFO_LBA], |kernel|, SectorCount(|kernel|), entry);
  }

  lemma InfoExactly(h: Sector)
    ensures FromLe32(h[8..12]) == Num4(h, 8) && FromLe32(h[12..16]) == Num4(h, 12) && FromLe32(h[16..20]) == Num4(h, 16)
    ensures GoodInfo(h) <==> h[..8] == [70, 85, 82, 66, 79, 79, 84, 49] && Num4(h, 8) != 0 && 1 <= Num4(h, 12) <= 1920
  {
    NumIsLe32(h, 8);
    NumIsLe32(h, 12);
    NumIsLe32(h, 16);
  }

  /** Which disk gives which outcome: the magic "FURBOOT1", a size and 1 to 1920 sectors in sector 1
      let the loader take that many sectors from sector 2 on. */
  lemma BootExactly(d: Sectors)
    ensures var r := BootOf(d);
      if |d| <= 1 then r == CannotRead
      else
        var h := d[1];
        if h[..8] != [70, 85, 82, 66, 79, 79, 84, 49] || Num4(h, 8) == 0 || !(1 <= Num4(h, 12) <= 1920) then
          r == InvalidInfo
        else if 2 + Num4(h, 12) > |d| then r == CannotRead
        else r == Jumps((Num4(h, 16) + 0x10_0000) % 0x1_0000_0000, Num4(h, 8), Flat(d, 2, Num4(h, 12)))
  {
    if |d| > 1 { InfoExactly(d[1]); }
  }

  /** Over any history of installs and saves, the last installation that succeeded boots, if no
      later one wrote anything. */
  lemma LastInstallBoots(ds: seq<Sectors>, es: seq<Event>, j: nat)
    requires History(ds, es) && j < |es| && es[j].Install? && es[j].ok
    requires forall k :: j < k < |es| && es[k].Install? ==> ds[k + 1] == ds[k]
    ensures var r := BootOf(ds[|es|]);
      r.Jumps? && r.address == LOAD_ADDR + es[j].entry && r.size == |es[j].kernel| <= |r.loaded|
      && r.loaded[..r.size] == es[j].kernel
  {
    LastInstallSurvives(ds, es, j);
    InstalledBoots(ds[|es|], es[j].kernel, es[j].entry, es[j].boot);
  }

  // ---- segment arithmetic --------------------------------------------------------------------

  /** `shlw $5` and `addw` on 16-bit registers. */
  function Segment(cx: int): int
    requires 0 <= cx < 0x1_0000
  {
    (LOAD_BUFFER_SEG + cx * 32 % 0x1_0000) % 0x1_0000
  }

  /** The segment of sector `cx` is right, and its buffer below the copy destination, exactly
      for the 1920 sectors the loader accepts. */
  lemma SegmentIsExact(cx: int)
    requires 0 <= cx < 0x1_0000
    ensures Segment(cx) * 16 == LOAD_BUFFER + SECTOR_SIZE * cx <==> cx < MAX_BOOT_KERNEL_SECTORS
    ensures cx < MAX_BOOT_KERNEL_SECTORS <==> LOAD_BUFFER + SECTOR_SIZE * (cx + 1) <= LOAD_ADDR
  {
  }

  /** The register arithmetic of one round of `load_loop` does not wrap. */
  lemma LoopRegisters(cx: int)
    requires 0 <= cx < MAX_BOOT_KERNEL_SECTORS
    ensures cx * 32 % 0x1_0000 == cx * 32
    ensures (LOAD_BUFFER_SEG + cx * 32) % 0x1_0000 == LOAD_BUFFER_SEG + cx * 32
    ensures (KERNEL_LBA_START + cx) % 0x1_0000_0000 == KERNEL_LBA_START + cx
    ensures (cx + 1) % 0x1_0000 == cx + 1
  {
  }

  datatype Outcome = DiskErrorHalt | InvalidInfoHalt | JumpTo(address: int)

  class BootSector {
    const mem: array<byte>
    const disk: Ata
    // the variables and the disk address packet of the boot sector
    var kernelSize: int
    var kernelSectors: int
    var kernelEntry: int
    var dapOffset: int
    var dapSegment: int
    var dapLba: int

    constructor (mem: array<byte>, disk: Ata)
      ensures this.mem == mem && this.disk == disk
    {
      this.mem, this.disk := mem, disk;
      kernelSize, kernelSectors, kernelEntry := 0, 0, 0;
      dapOffset, dapSegment, dapLba := 0, LOAD_BUFFER_SEG, 0;
    }

    /** The extended read of one sector, `int 0x13` with ah = 0x42; true is the carry flag. */
    method ReadDap() returns (carry: bool)
      requires 0 <= dapLba && 0 <= dapSegment && 0 <= dapOffset
      requires dapSegment * 16 + dapOffset + SECTOR_SIZE <= mem.Length
      modifies mem, disk`faults
      ensures !carry ==> dapLba < disk.sectors.Length
      ensures disk.faults == old(disk.faults) + if carry && dapLba < disk.sectors.Length then 1 else 0
      ensures !carry ==> mem[..] == Splice(old(mem[..]), dapSegment * 16 + dapOffset, disk.sectors[dapLba])
      ensures forall k :: 0 <= k < mem.Length && !(0 <= k - dapSegment * 16 - dapOffset < SECTOR_SIZE) ==>
        mem[k] == old(mem[k])
    {
      var ok, s := disk.ReadSector(dapLba);
      if !ok { s := *; }  // a failed read may leave anything in its buffer
      KMemcpy(mem, dapSegment * 16 + dapOffset, s);
      return !ok;
    }

    /** `_start` up to `load_loop`: fetch and check the boot information. */
    method ReadInfo() returns (halt: Outcome, ok: bool)
      requires mem.Length >= LOAD_ADDR
      modifies this, mem, disk`faults
      ensures disk.faults >= old(disk.faults) && (ok ==> disk.faults == old(disk.faults))
      ensures !ok && halt == DiskErrorHalt && disk.faults == old(disk.faults) ==> disk.sectors.Length <= BOOT_INFO_LBA
      ensures !ok ==> halt == DiskErrorHalt || (halt == InvalidInfoHalt && BootOf(disk.sectors[..]) == InvalidInfo)
      ensures ok ==> BOOT_INFO_LBA < disk.sectors.Length
      ensures ok ==> var info := disk.sectors[BOOT_INFO_LBA];
        GoodInfo(info) && kernelSize == FromLe32(info[8..12]) && kernelSectors == FromLe32(info[12..16])
        && kernelEntry == FromLe32(info[16..20])
      ensures forall k :: BOOT_SECTOR <= k < mem.Length ==> mem[k] == old(mem[k])
    {
      dapOffset, dapSegment, dapLba := BOOT_INFO_BUF, 0, BOOT_INFO_LBA;
      var carry := ReadDap();
      if carry { return DiskErrorHalt, false; }
      ghost var info := disk.sectors[BOOT_INFO_LBA];
      assert mem[BOOT_INFO_BUF..BOOT_INFO_BUF + SECTOR_SIZE] == info;
      var magic := CheckMagic(info);
      if !magic { return InvalidInfoHalt, false; }
      kernelSize := FromLe32(mem[BOOT_INFO_BUF + 8..BOOT_INFO_BUF + 12]);
      kernelSectors := FromLe32(mem[BOOT_INFO_BUF + 12..BOOT_INFO_BUF + 16]);
      kernelEntry := FromLe32(mem[BOOT_INFO_BUF + 16..BOOT_INFO_BUF + 20]);
      InfoFields(mem[..], info);
      if kernelSize == 0 || kernelSectors == 0 || kernelSectors > MAX_BOOT_KERNEL_SECTORS {
        return InvalidInfoHalt, false;
      }
      return InvalidInfoHalt, true;
    }

    /** `check_magic`, on the boot information at 0x600. */
    method CheckMagic(ghost info: Sector) returns (ok: bool)
      requires mem.Length >= LOAD_ADDR && mem[BOOT_INFO_BUF..BOOT_INFO_BUF + SECTOR_SIZE] == info
      ensures ok <==> info[..8] == BOOT_MAGIC
    {
      var si := 0;
      while si != 8
        invariant 0 <= si <= 8
        invariant forall k :: 0 <= k < si ==> info[k] == BOOT_MAGIC[k]
        decreases 8 - si
      {
        assert mem[BOOT_INFO_BUF + si] == info[si];
        if mem[BOOT_INFO_BUF + si] != BOOT_MAGIC[si] {
          assert info[..8][si] != BOOT_MAGIC[si];
          return false;
        }
        si := si + 1;
      }
      return true;
    }

    /** `load_loop`: one sector at a time into the buffer from 0x10000, never touching the boot
        sector itself or anything from 1 MiB up. */
    method LoadKernel() returns (ok: bool)
      requires mem.Length >= LOAD_ADDR && 0 < kernelSectors <= MAX_BOOT_KERNEL_SECTORS
      modifies this`dapOffset, this`dapSegment, this`dapLba, mem, disk`faults
      ensures disk.faults >= old(disk.faults)
      ensures !ok && disk.faults == old(disk.faults) ==> KERNEL_LBA_START + kernelSectors > disk.sectors.Length
      ensures ok ==> KERNEL_LBA_START + kernelSectors <= disk.sectors.Length
      ensures ok ==>
        mem[LOAD_BUFFER..LOAD_BUFFER + SECTOR_SIZE * kernelSectors]
        == Flat(disk.sectors[..], KERNEL_LBA_START, kernelSectors)
      ensures OnlyBuffer(old(mem[..]), mem[..])
    {
      ghost var was := mem[..];
      var cx := 0;
      while cx < kernelSectors
        invariant 0 <= cx <= kernelSectors && (cx > 0 ==> KERNEL_LBA_START + cx <= disk.sectors.Length)
        invariant disk.faults == old(disk.faults)
        invariant mem[..] == MemoryAfter(was, disk.sectors[..], cx)
        decreases kernelSectors - cx
      {
        var carry := LoadSector(cx, was);
        if carry { return false; }
        LoopRegisters(cx);
        cx := (cx + 1) % 0x1_0000;
      }
      MemoryHolds(was, disk.sectors[..], cx);
      return true;
    }

    /** The body of `load_loop` for sector number `cx`. */
    method LoadSector(cx: int, ghost was: seq<byte>) returns (carry: bool)
      requires mem.Length >= LOAD_ADDR && 0 <= cx < MAX_BOOT_KERNEL_SECTORS && |was| == mem.Length
      requires cx > 0 ==> KERNEL_LBA_START + cx <= disk.sectors.Length
      requires mem[..] == MemoryAfter(was, disk.sectors[..], cx)
      modifies this`dapOffset, this`dapSegment, this`dapLba, mem, disk`faults
      ensures disk.faults == old(disk.faults) + if carry && KERNEL_LBA_START + cx < disk.sectors.Length then 1 else 0
      ensures !carry ==> KERNEL_LBA_START + cx < disk.sectors.Length
      ensures !carry ==> mem[..] == MemoryAfter(was, disk.sectors[..], cx + 1)
      ensures carry ==> OnlyBuffer(was, mem[..])
    {
      MemoryHolds(was, disk.sectors[..], cx);
      LoopRegisters(cx);
      var bx := cx * 32 % 0x1_0000;
      dapOffset := 0;
      dapSegment := (LOAD_BUFFER_SEG + bx) % 0x1_0000;
      dapLba := (KERNEL_LBA_START + cx) % 0x1_0000_0000;
      assert dapLba == KERNEL_LBA_START + cx && dapSegment * 16 == LOAD_BUFFER + SECTOR_SIZE * cx;
      carry := ReadDap();
    }

    /** `rep movsb` from the buffer to 1 MiB. Where there is no memory a write is lost. */
    method CopyUp()
      requires mem.Length >= LOAD_ADDR && 0 <= kernelSize <= 0x1_0000_0000 - LOAD_ADDR
      modifies mem
      ensures forall k {:trigger mem[k]} :: 0 <= k < LOAD_ADDR ==> mem[k] == old(mem[k])
      ensures forall k {:trigger mem[k]} ::
        LOAD_ADDR <= k < LOAD_ADDR + kernelSize && k < mem.Length && k < 2 * LOAD_ADDR - LOAD_BUFFER ==>
        mem[k] == old(mem[k - (LOAD_ADDR - LOAD_BUFFER)])
      ensures forall k {:trigger mem[k]} :: LOAD_ADDR + kernelSize <= k < mem.Length ==> mem[k] == old(mem[k])
    {
      for i := 0 to kernelSize
        invariant forall k {:trigger mem[k]} :: 0 <= k < LOAD_ADDR ==> mem[k] == old(mem[k])
        invariant forall k {:trigger mem[k]} ::
          LOAD_ADDR <= k < LOAD_ADDR + i && k < mem.Length && k < 2 * LOAD_ADDR - LOAD_BUFFER ==>
          mem[k] == old(mem[k - (LOAD_ADDR - LOAD_BUFFER)])
        invariant forall k {:trigger mem[k]} :: LOAD_ADDR + i <= k < mem.Length ==> mem[k] == old(mem[k])
      {
        if LOAD_ADDR + i < mem.Length {
          mem[LOAD_ADDR + i] := mem[LOAD_BUFFER + i];
        }
      }
    }

    /** The whole boot sector, for any amount of memory from 1 MiB on. The copy the disk asks for
        must not run round the end of the 32-bit addresses. */
    method Run() returns (outcome: Outcome)
      requires mem.Length >= LOAD_ADDR
      requires disk.sectors.Length > BOOT_INFO_LBA ==>
        FromLe32(disk.sectors[BOOT_INFO_LBA][8..12]) <= 0x1_0000_0000 - LOAD_ADDR
      modifies this, mem, disk`faults
      ensures match outcome
        case DiskErrorHalt => disk.faults > old(disk.faults) || BootOf(disk.sectors[..]) == CannotRead
        case InvalidInfoHalt => BootOf(disk.sectors[..]) == InvalidInfo
        case JumpTo(address) => Booted(mem[..], BootOf(disk.sectors[..]), address)
      ensures forall k {:trigger mem[k]} :: BOOT_SECTOR <= k < LOAD_BUFFER ==> mem[k] == old(mem[k])
      ensures var r := BootOf(disk.sectors[..]);
        forall k {:trigger mem[k]} ::
          LOAD_ADDR <= k < mem.Length && (outcome.JumpTo? ==> r.Jumps? && k >= LOAD_ADDR + r.size) ==>
          mem[k] == old(mem[k])
    {
      var halt, ok := ReadInfo();
      if !ok { return halt; }
      ghost var was := mem[..];
      ok := LoadKernel();
      OutsideKept(was, mem[..]);
      if !ok { return DiskErrorHalt; }
      ghost var before := mem[..];
      CopyUp();
      Copied(before, mem[..], BootOf(disk.sectors[..]));
      return JumpTo((kernelEntry + LOAD_ADDR) % 0x1_0000_0000);
    }

    /** End to end: on a disk where `kernel` is installed, the boot sector stops on a failed read
        or leaves memory from 1 MiB equal to the kernel, byte for byte, and jumps to its entry. */
    method BootInstalled(ghost kernel: seq<byte>, ghost entry: nat, ghost boot: seq<byte>) returns (outcome: Outcome)
      requires Installed(disk.sectors[..], kernel, entry, boot) && mem.Length >= LOAD_ADDR + |kernel|
      modifies this, mem, disk`faults
      ensures outcome == DiskErrorHalt || outcome == JumpTo(0x10_0000 + entry)
      ensures outcome == DiskErrorHalt ==> disk.faults > old(disk.faults)
      ensures outcome.JumpTo? ==> mem[0x10_0000..0x10_0000 + |kernel|] == kernel
      ensures forall k {:trigger mem[k]} :: 0x7c00 <= k < 0x1_0000 || 0x10_0000 + |kernel| <= k < mem.Length ==>
        mem[k] == old(mem[k])
    {
      InstalledBoots(disk.sectors[..], kernel, entry, boot);
      outcome := Run();
    }
  }

  /** Memory after a successful boot. */
  predicate Booted(mem: seq<byte>, r: BootResult, address: int) {
    && r.Jumps? && address == r.address && HoldsKernel(mem, r)
  }

  predicate HoldsKernel(mem: seq<byte>, r: BootResult)
    requires r.Jumps?
  {
    r.size <= |r.loaded| && LOAD_ADDR + r.size <= |mem| ==> mem[LOAD_ADDR..LOAD_ADDR + r.size] == r.loaded[..r.size]
  }

  lemma Copied(before: seq<byte>, after: seq<byte>, r: BootResult)
    requires r.Jumps? && |r.loaded| <= LOAD_ADDR - LOAD_BUFFER && |before| == |after| >= LOAD_ADDR
    requires before[LOAD_BUFFER..LOAD_BUFFER + |r.loaded|] == r.loaded
    requires forall k {:trigger after[k]} ::
      LOAD_ADDR <= k < LOAD_ADDR + r.size && k < |after| && k < 2 * LOAD_ADDR - LOAD_BUFFER ==>
      after[k] == before[k - (LOAD_ADDR - LOAD_BUFFER)]
    ensures HoldsKernel(after, r)
  {
    if r.size <= |r.loaded| && LOAD_ADDR + r.size <= |after| {
      forall i | 0 <= i < r.size ensures after[LOAD_ADDR..LOAD_ADDR + r.size][i] == r.loaded[..r.size][i] {
        assert r.loaded[i] == before[LOAD_BUFFER..LOAD_BUFFER + |r.loaded|][i];
        assert after[LOAD_ADDR + i] == before[LOAD_BUFFER + i];
      }
    }
  }

  lemma InfoFields(mem: seq<byte>, info: Sector)
    requires |mem| >= BOOT_INFO_BUF + SECTOR_SIZE && mem[BOOT_INFO_BUF..BOOT_INFO_BUF + SECTOR_SIZE] == info
    ensures mem[BOOT_INFO_BUF + 8..BOOT_INFO_BUF + 12] == info[8..12]
    ensures mem[BOOT_INFO_BUF + 12..BOOT_INFO_BUF + 16] == info[12..16]
    ensures mem[BOOT_INFO_BUF + 16..BOOT_INFO_BUF + 20] == info[16..20]
  {
  }

  /** The memories agree outside the load buffer. */
  predicate OnlyBuffer(m: seq<byte>, m': seq<byte>) {
    |m| == |m'| && (|m| >= LOAD_ADDR ==> m[..LOAD_BUFFER] == m'[..LOAD_BUFFER] && m[LOAD_ADDR..] == m'[LOAD_ADDR..])
  }

  lemma OutsideKept(m: seq<byte>, m': seq<byte>)
    requires OnlyBuffer(m, m') && |m| >= LOAD_ADDR
    ensures forall k {:trigger m'[k]} :: 0 <= k < |m| && !(LOAD_BUFFER <= k < LOAD_ADDR) ==> m'[k] == m[k]
  {
    forall k | 0 <= k < |m| && !(LOAD_BUFFER <= k < LOAD_ADDR) ensures m'[k] == m[k] {
      if k < LOAD_BUFFER {
        assert m'[..LOAD_BUFFER][k] == m[..LOAD_BUFFER][k];
      } else {
        assert m'[LOAD_ADDR..][k - LOAD_ADDR] == m[LOAD_ADDR..][k - LOAD_ADDR];
      }
    }
  }

  /** Memory after `n` rounds of `load_loop`. */
  ghost function MemoryAfter(m: seq<byte>, d: Sectors, n: nat): (r: seq<byte>)
    requires n <= MAX_BOOT_KERNEL_SECTORS && |m| >= LOAD_ADDR && (n > 0 ==> KERNEL_LBA_START + n <= |d|)
    ensures |r| == |m|
  {
    if n == 0 then m
    else Splice(MemoryAfter(m, d, n - 1), LOAD_BUFFER + SECTOR_SIZE * (n - 1), d[KERNEL_LBA_START + n - 1])
  }

  /** It holds the sectors one behind the other, and nothing else has changed. */
  lemma {:induction false} MemoryHolds(m: seq<byte>, d: Sectors, n: nat)
    requires n <= MAX_BOOT_KERNEL_SECTORS && |m| >= LOAD_ADDR && (n > 0 ==> KERNEL_LBA_START + n <= |d|)
    ensures n > 0 ==>
      MemoryAfter(m, d, n)[LOAD_BUFFER..LOAD_BUFFER + SECTOR_SIZE * n] == Flat(d, KERNEL_LBA_START, n)
    ensures OnlyBuffer(m, MemoryAfter(m, d, n))
  {
    if n > 0 {
      MemoryHolds(m, d, n - 1);
      AppendedSector(MemoryAfter(m, d, n - 1), MemoryAfter(m, d, n), LOAD_BUFFER, SECTOR_SIZE * (n - 1),
                     d[KERNEL_LBA_START + n - 1]);
    }
  }

  lemma AppendedSector(before: seq<byte>, after: seq<byte>, start: nat, len: nat, s: Sector)
    requires start + len + SECTOR_SIZE <= |before| && after == Splice(before, start + len, s)
    ensures after[start..start + len + SECTOR_SIZE] == before[start..start + len] + s
  {
  }
}
