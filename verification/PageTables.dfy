/** kernel/boot.S: the page tables of the switch to long mode, and the 4-level page walk of the
    processor (Intel SDM Vol. 3A, section 4.5) over them. */
module PageTables {
  const TABLE_WORDS := 1024  // a 4096-byte table as 32-bit words
  const ALL_WORDS := 6144    // pml4, pdp and four page directories, one after the other

  type Word = x: int | 0 <= x < 0x1_0000_0000

  /** Where the linker may put the six tables. */
  predicate GoodBase(base: int) {
    0 <= base && base % 4096 == 0 && base + 4 * ALL_WORDS <= 0x1_0000_0000
  }

  /** `orl` with flags on a value whose low twelve bits are clear. */
  function WithFlags(x: Word, flags: int): Word
    requires x % 4096 == 0 && 0 <= flags < 4096
  {
    x + flags
  }

  /** The word at index `k` once the tables are set up. */
  function TableWord(base: int, k: int): Word
    requires GoodBase(base) && 0 <= k < ALL_WORDS
  {
    if k < TABLE_WORDS then
      if k == 0 then base + 4096 + 0x03 else 0
    else if k < 2 * TABLE_WORDS then
      var j := k - TABLE_WORDS;
      if j < 8 && j % 2 == 0 then base + 8192 + 4096 * (j / 2) + 0x03 else 0
    else
      var j := k - 2 * TABLE_WORDS;
      if j % 2 == 0 then (j / 2) * 0x20_0000 + 0x83 else 0
  }

  // ---- the page walk ------------------------------------------------------------------------------

  datatype Translation = NotPresent | Page2M(physical: int, writable: bool) | NotModelled

  predicate InTables(base: int, table: int) {
    base <= table && table + 4096 <= base + 4 * ALL_WORDS && (table - base) % 4 == 0
  }

  /** 64-bit entry number `i` of the table at physical address `table`. */
  function Entry(words: seq<Word>, base: int, table: int, i: int): int
    requires |words| == ALL_WORDS && InTables(base, table) && 0 <= i < 512
  {
    var k := (table - base) / 4 + 2 * i;
    (words[k] as int) + 0x1_0000_0000 * (words[k + 1] as int)
  }

  predicate Present(e: int) { e % 2 == 1 }
  predicate Writable(e: int) { e / 2 % 2 == 1 }
  predicate LargePage(e: int) { e / 128 % 2 == 1 }

  /** Bits 51:12 of an entry as the address of a table, bits 51:21 as that of a 2 MiB page. */
  function TableAddress(e: int): int {
    e / 4096 % 0x100_0000_0000 * 4096
  }

  function PageAddress(e: int): int {
    e / 0x20_0000 % 0x8000_0000 * 0x20_0000
  }

  /** The walk by the table indices and the page offset of an address. Large pages above the
      directory level and tables that lie elsewhere do not occur here. */
  function Walk(words: seq<Word>, base: int, i4: int, i3: int, i2: int, offset: int): Translation
    requires |words| == ALL_WORDS && 0 <= i4 < 512 && 0 <= i3 < 512 && 0 <= i2 < 512
  {
    var e4 := Entry(words, base, base, i4);
    if !Present(e4) then NotPresent
    else if !InTables(base, TableAddress(e4)) then NotModelled
    else
      var e3 := Entry(words, base, TableAddress(e4), i3);
      if !Present(e3) then NotPresent
      else if LargePage(e3) || !InTables(base, TableAddress(e3)) then NotModelled
      else
        var e2 := Entry(words, base, TableAddress(e3), i2);
        if !Present(e2) then NotPresent
        else if !LargePage(e2) then NotModelled
        else Page2M(PageAddress(e2) + offset, Writable(e4) && Writable(e3) && Writable(e2))
  }

  /** Translation of a lower-half linear address. */
  function Translate(words: seq<Word>, base: int, va: int): Translation
    requires |words| == ALL_WORDS && 0 <= va < 0x8000_0000_0000
  {
    Walk(words, base, va / 0x80_0000_0000, va / 0x4000_0000 % 512, va / 0x20_0000 % 512, va % 0x20_0000)
  }

  predicate SetUp(words: seq<Word>, base: int) {
    GoodBase(base) && |words| == ALL_WORDS && forall k :: 0 <= k < ALL_WORDS ==> words[k] == TableWord(base, k)
  }

  lemma LowBit(h: int, low: int)
    requires 0 <= h && 0 <= low
    ensures (2 * h + low) % 2 == low % 2
  {
  }

  lemma HalfBit(h: int, low: int)
    requires 0 <= h && 0 <= low
    ensures (4 * h + low) / 2 % 2 == low / 2 % 2
  {
    assert (4 * h + low) / 2 == 2 * h + low / 2;
    LowBit(h, low / 2);
  }

  lemma LargeBit(g: int, low: int)
    requires 0 <= g && 0 <= low
    ensures (256 * g + low) / 128 % 2 == low / 128 % 2
  {
    assert (256 * g + low) / 128 == 2 * g + low / 128;
    LowBit(g, low / 128);
  }

  /** The flags of an entry do not depend on the address above them. */
  lemma EntryFlags(q: int, flags: int)
    requires 0 <= q && 0 <= flags
    ensures Present(4096 * q + flags) == Present(flags)
    ensures Writable(4096 * q + flags) == Writable(flags)
    ensures LargePage(4096 * q + flags) == LargePage(flags)
  {
    LowBit(2048 * q, flags);
    HalfBit(1024 * q, flags);
    LargeBit(16 * q, flags);
  }

  lemma PointerAddress(q: int)
    requires 0 <= q < 0x10_0000
    ensures TableAddress(4096 * q + 3) == 4096 * q
  {
    assert (4096 * q + 3) / 4096 == q;
  }

  /** The bits of an entry that points to a table. */
  lemma PointerBits(table: int)
    requires 0 <= table < 0x1_0000_0000 && table % 4096 == 0
    ensures Present(table + 3) && Writable(table + 3) && !LargePage(table + 3) && TableAddress(table + 3) == table
  {
    var q := table / 4096;
    assert table == 4096 * q;
    EntryFlags(q, 3);
    PointerAddress(q);
  }

  lemma PageNumber(n: int)
    requires 0 <= n < 2048
    ensures PageAddress(n * 0x20_0000 + 0x83) == n * 0x20_0000
  {
    assert (n * 0x20_0000 + 0x83) / 0x20_0000 == n;
  }

  /** The bits of an entry that maps page `n`. */
  lemma PageBits(n: int)
    requires 0 <= n < 2048
    ensures var e := n * 0x20_0000 + 0x83;
      Present(e) && Writable(e) && LargePage(e) && PageAddress(e) == n * 0x20_0000
  {
    assert n * 0x20_0000 + 0x83 == 4096 * (n * 512) + 0x83;
    EntryFlags(n * 512, 0x83);
    PageNumber(n);
  }

  lemma TopEntry(words: seq<Word>, base: int, i: int)
    requires SetUp(words, base) && 0 <= i < 512
    ensures Entry(words, base, base, i) == if i == 0 then base + 4096 + 3 else 0
  {
  }

  lemma PointerEntry(words: seq<Word>, base: int, i: int)
    requires SetUp(words, base) && 0 <= i < 512
    ensures Entry(words, base, base + 4096, i) == if i < 4 then base + 8192 + 4096 * i + 3 else 0
  {
  }

  lemma PageEntry(words: seq<Word>, base: int, d: int, i: int)
    requires SetUp(words, base) && 0 <= d < 4 && 0 <= i < 512
    ensures Entry(words, base, base + 8192 + 4096 * d, i) == (i + d * 512) * 0x20_0000 + 0x83
  {
  }

  lemma DirectoryWords(base: int, edx: int, ecx: int)
    requires GoodBase(base) && 0 <= edx < 4 && 0 <= ecx < 512
    ensures var k := 2048 + 1024 * edx + 2 * ecx;
      TableWord(base, k) == (ecx + edx * 512) * 0x20_0000 + 0x83 && TableWord(base, k + 1) == 0
  {
  }

  /** The walk finds a writable 2 MiB page exactly under the first four directory pointers of
      the first top-level entry, and it is the page with the combined index. */
  lemma WalkMaps(words: seq<Word>, base: int, i4: int, i3: int, i2: int, offset: int)
    requires SetUp(words, base) && 0 <= i4 < 512 && 0 <= i3 < 512 && 0 <= i2 < 512
    ensures Walk(words, base, i4, i3, i2, offset)
      == if i4 == 0 && i3 < 4 then Page2M((i2 + i3 * 512) * 0x20_0000 + offset, true) else NotPresent
  {
    TopEntry(words, base, i4);
    if i4 == 0 {
      PointerBits(base + 4096);
      PointerEntry(words, base, i3);
      if i3 < 4 {
        PointerBits(base + 8192 + 4096 * i3);
        PageEntry(words, base, i3, i2);
        PageBits(i2 + i3 * 512);
      }
    }
  }

  /** The indices of a linear address below 4 GiB select page number `va / 2 MiB`; from there on
      they leave the mapped entries. */
  lemma Indices(va: int)
    requires 0 <= va < 0x8000_0000_0000
    ensures 0 <= va / 0x80_0000_0000 < 256
    ensures va / 0x80_0000_0000 == 0 && va / 0x4000_0000 % 512 < 4 <==> va < 0x1_0000_0000
    ensures va < 0x1_0000_0000 ==>
      (va / 0x20_0000 % 512 + va / 0x4000_0000 % 512 * 512) * 0x20_0000 + va % 0x20_0000 == va
  {
  }

  /** The tables identity-map exactly the first 4 GiB: every lower-half address below is mapped
      to itself, writable, through a 2 MiB page, and every one from there on is not present. */
  lemma IdentityMap(words: seq<Word>, base: int, va: int)
    requires SetUp(words, base) && 0 <= va < 0x8000_0000_0000
    ensures Translate(words, base, va) == if va < 0x1_0000_0000 then Page2M(va, true) else NotPresent
  {
    Indices(va);
    WalkMaps(words, base, va / 0x80_0000_0000, va / 0x4000_0000 % 512, va / 0x20_0000 % 512, va % 0x20_0000);
  }

  /** The shifts of the inner loop do not lose a bit, and the result has room for the flags. */
  lemma EntryFits(edx: int, ecx: int)
    requires 0 <= edx < 4 && 0 <= ecx < 512
    ensures edx * 512 % 0x1_0000_0000 == edx * 512
    ensures (ecx + edx * 512) * 0x20_0000 % 0x1_0000_0000 == (ecx + edx * 512) * 0x20_0000
    ensures (ecx + edx * 512) * 0x20_0000 % 4096 == 0
    ensures (ecx + edx * 512) * 0x20_0000 + 0x83 < 0x1_0000_0000
  {
  }

  /** Every entry in numbers: one pointer to the directory pointers, four to the directories, and
      2048 pages of 2 MiB, present, writable and for the supervisor only; the rest is zero. */
  predicate HasEntries(words: seq<Word>, base: int) {
    && |words| == 6144 && words[0] == base + 0x1003 && (forall k :: 1 <= k < 1024 ==> words[k] == 0)
    && (forall d {:trigger words[1024 + 2 * d]} :: 0 <= d < 4 ==>
          words[1024 + 2 * d] == base + 0x2003 + 0x1000 * d && words[1025 + 2 * d] == 0)
    && (forall k :: 1032 <= k < 2048 ==> words[k] == 0)
    && (forall n {:trigger words[2048 + 2 * n]} :: 0 <= n < 2048 ==>
          words[2048 + 2 * n] == n * 0x20_0000 + 0x83 && words[2049 + 2 * n] == 0)
  }

  lemma EntriesExactly(words: seq<Word>, base: int)
    requires SetUp(words, base)
    ensures HasEntries(words, base)
  {
    forall d | 0 <= d < 4
      ensures words[1024 + 2 * d] == base + 0x2003 + 0x1000 * d && words[1025 + 2 * d] == 0
    {
      assert words[1024 + 2 * d] == TableWord(base, 1024 + 2 * d);
      assert words[1025 + 2 * d] == TableWord(base, 1025 + 2 * d);
    }
    forall n | 0 <= n < 2048
      ensures words[2048 + 2 * n] == n * 0x20_0000 + 0x83 && words[2049 + 2 * n] == 0
    {
      assert words[2048 + 2 * n] == TableWord(base, 2048 + 2 * n);
      assert words[2049 + 2 * n] == TableWord(base, 2049 + 2 * n);
    }
  }

  class BootTables {
    const words: array<Word>
    const base: int  // address of pml4_table

    constructor (words: array<Word>, base: int)
      ensures this.words == words && this.base == base
    {
      this.words, this.base := words, base;
    }

    /** `setup_page_tables` */
    method Setup()
      requires words.Length == ALL_WORDS && GoodBase(base)
      modifies words
      ensures SetUp(words[..], base) && HasEntries(words[..], base)
      ensures forall va :: 0 <= va < 0x8000_0000_0000 ==>
        Translate(words[..], base, va) == if va < 0x1_0000_0000 then Page2M(va, true) else NotPresent
    {
      FillTables();
      EntriesExactly(words[..], base);
      forall va | 0 <= va < 0x8000_0000_0000
        ensures Translate(words[..], base, va) == if va < 0x1_0000_0000 then Page2M(va, true) else NotPresent
      {
        IdentityMap(words[..], base, va);
      }
    }

    /** The clearing, the five pointers and the nested loops. */
    method FillTables()
      requires words.Length == ALL_WORDS && GoodBase(base)
      modifies words
      ensures SetUp(words[..], base)
    {
      for i := 0 to ALL_WORDS
        invariant forall k :: 0 <= k < i ==> words[k] == 0
      {
        words[i] := 0;
      }
      words[0], words[1] := WithFlags(base + 4096, 0x03), 0;
      words[1024], words[1025] := WithFlags(base + 8192, 0x03), 0;
      words[1026], words[1027] := WithFlags(base + 12288, 0x03), 0;
      words[1028], words[1029] := WithFlags(base + 16384, 0x03), 0;
      words[1030], words[1031] := WithFlags(base + 20480, 0x03), 0;
      FillDirectories();
    }

    /** The nested loops; `ebx` is kept as the word index of the directory. */
    method FillDirectories()
      requires words.Length == ALL_WORDS && GoodBase(base)
      requires forall k :: 0 <= k < 2048 ==> words[k] == TableWord(base, k)
      modifies words
      ensures SetUp(words[..], base)
    {
      var edx, ebx := 0, 2048;
      while edx != 4
        invariant 0 <= edx <= 4 && ebx == 2048 + 1024 * edx
        invariant forall k :: 0 <= k < ebx ==> words[k] == TableWord(base, k)
        decreases 4 - edx
      {
        var ecx := 0;
        while ecx != 512
          invariant 0 <= ecx <= 512
          invariant forall k :: 0 <= k < ebx + 2 * ecx ==> words[k] == TableWord(base, k)
          decreases 512 - ecx
        {
          EntryFits(edx, ecx);
          var eax := ecx;
          var esi := edx * 512 % 0x1_0000_0000;
          eax := (eax + esi) % 0x1_0000_0000;
          eax := eax * 0x20_0000 % 0x1_0000_0000;
          words[ebx + 2 * ecx] := WithFlags(eax, 0x83);
          words[ebx + 2 * ecx + 1] := 0;
          DirectoryWords(base, edx, ecx);
          ecx := ecx + 1;
        }
        ebx := ebx + 1024;
        edx := edx + 1;
      }
    }
  }
}
