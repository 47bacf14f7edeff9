/** What NOR flash cells do, and the simulator of such a chip in sim/SpiFlash.cpp. */
module NorFlash {

  type Cells = seq<bv8>

  const BLANK: bv8 := 0xFF

  // ---------------------------------------------------------------------------------------------
  // Programming can only clear bits; erasing sets them all
  // ---------------------------------------------------------------------------------------------

  function Programmed(m: Cells, a: nat, data: Cells): (r: Cells)
    ensures |r| == |m|
  {
    seq(|m|, k requires 0 <= k < |m| => if a <= k < a + |data| then m[k] & data[k - a] else m[k])
  }

  function Erased(m: Cells, a: nat, n: nat): (r: Cells)
    ensures |r| == |m|
  {
    seq(|m|, k requires 0 <= k < |m| => if a <= k < a + n then BLANK else m[k])
  }

  lemma ProgrammedNothing(m: Cells, a: nat)
    ensures Programmed(m, a, []) == m
  {}

  /** Two programs that adjoin are one. */
  lemma ProgrammedAppend(m: Cells, a: nat, x: Cells, y: Cells)
    ensures Programmed(Programmed(m, a, x), a + |x|, y) == Programmed(m, a, x + y)
  {}

  function Blanks(n: nat): (r: Cells)
    ensures |r| == n
  {
    seq(n, _ => BLANK)
  }

  lemma BlankIsNeutral(c: bv8)
    ensures c & BLANK == c
  {}

  /** Padding with 0xFF programs nothing. */
  lemma ProgrammedPadded(m: Cells, a: nat, left: nat, data: Cells, right: nat)
    requires left <= a
    ensures Programmed(m, a - left, Blanks(left) + data + Blanks(right)) == Programmed(m, a, data)
  {
    var padded := Blanks(left) + data + Blanks(right);
    forall k | 0 <= k < |m| ensures Programmed(m, a - left, padded)[k] == Programmed(m, a, data)[k] {
      BlankIsNeutral(m[k]);
      if a - left <= k < a - left + |padded| {
        assert padded[k - (a - left)] == if a <= k < a + |data| then data[k - a] else BLANK;
      }
    }
  }

  lemma ErasedAppend(m: Cells, a: nat, n: nat, more: nat)
    ensures Erased(Erased(m, a, n), a + n, more) == Erased(m, a, n + more)
  {}

  /** What has been erased can be programmed to any value. */
  lemma ProgramAfterErase(m: Cells, a: nat, data: Cells)
    requires a + |data| <= |m|
    ensures Programmed(Erased(m, a, |data|), a, data)[a..a + |data|] == data
  {
    var r := Programmed(Erased(m, a, |data|), a, data);
    forall k | 0 <= k < |data| ensures r[a..a + |data|][k] == data[k] {
      assert r[a..a + |data|][k] == r[a + k] == BLANK & data[k];
      BlankIsNeutral(data[k]);
    }
  }

  // ---------------------------------------------------------------------------------------------
  // Sectors and addresses
  // ---------------------------------------------------------------------------------------------

  /** Where sector, block or page number `i` starts. */
  function Start(i: nat, size: nat): nat {
    i * size
  }

  function SectorOf(size: nat, address: nat): nat
    requires size > 0
  {
    address / size
  }

  predicate Multiple(a: nat, b: nat) {
    b > 0 && a % b == 0
  }

  lemma {:induction false} Ordered(i: nat, j: nat, size: nat)
    ensures i < j ==> Start(i, size) + size <= Start(j, size)
  {
    if i < j {
      StartNext(j - 1, size);
      hide Start;
      Ordered(i, j - 1, size);
    }
  }

  lemma SectorHolds(size: nat, address: nat)
    requires size > 0
    ensures Start(SectorOf(size, address), size) <= address < Start(SectorOf(size, address), size) + size
  {}

  lemma InSector(size: nat, s: nat, k: nat)
    requires size > 0 && Start(s, size) <= k < Start(s, size) + size
    ensures SectorOf(size, k) == s
  {
    hide Start, SectorOf;
    SectorHolds(size, k);
    Ordered(s, SectorOf(size, k), size);
    Ordered(SectorOf(size, k), s, size);
  }

  lemma SectorInChip(size: nat, sectors: nat, address: nat)
    requires size > 0 && address < Start(sectors, size)
    ensures SectorOf(size, address) < sectors
  {
    hide Start, SectorOf;
    SectorHolds(size, address);
    Ordered(sectors, SectorOf(size, address), size);
  }

  lemma StartNext(i: nat, size: nat)
    ensures Start(i + 1, size) == Start(i, size) + size && Start(0, size) == 0
  {}

  lemma StartSplit(i: nat, j: nat, size: nat)
    ensures Start(i + j, size) == Start(i, size) + Start(j, size)
  {}

  lemma StartNested(i: nat, per: nat, size: nat)
    ensures Start(Start(i, per), size) == Start(i, Start(per, size))
  {}

  lemma DividesBack(a: nat, b: nat)
    requires Multiple(a, b)
    ensures Start(a / b, b) == a
  {}

  // ---------------------------------------------------------------------------------------------
  // The simulated chip
  // ---------------------------------------------------------------------------------------------

  /** What a simulated chip holds: its cells, and for each sector whether it counts as erased and how often it was. */
  datatype Contents = Contents(memory: Cells, erased: seq<bool>, cycles: seq<nat>, total: nat)

  datatype Limits = Limits(cycles: nat, total: nat)

  predicate Exhausted(c: Contents, limits: Limits) {
    limits.total != 0 && c.total >= limits.total
  }

  predicate WornOut(c: Contents, limits: Limits, sector: nat)
    requires sector < |c.cycles|
  {
    limits.cycles != 0 && c.cycles[sector] >= limits.cycles
  }

  /** Erasing a sector: one that counts as erased is left as it is. */
  function SectorErased(c: Contents, limits: Limits, size: nat, sector: nat): (r: Contents)
    requires sector < |c.cycles| == |c.erased|
    ensures |r.cycles| == |c.cycles| == |r.erased| && |r.memory| == |c.memory|
  {
    if Exhausted(c, limits) || WornOut(c, limits, sector) || c.erased[sector] then c else
    Contents(Erased(c.memory, Start(sector, size), size), c.erased[sector := true],
             c.cycles[sector := c.cycles[sector] + 1], c.total + 1)
  }

  function SectorsErased(c: Contents, limits: Limits, size: nat, first: nat, n: nat): (r: Contents)
    requires first + n <= |c.cycles| == |c.erased|
    ensures |r.cycles| == |c.cycles| == |r.erased| && |r.memory| == |c.memory|
    decreases n
  {
    if n == 0 then c else SectorErased(SectorsErased(c, limits, size, first, n - 1), limits, size, first + n - 1)
  }

  /** The sectors, counted from `first`, up to the first worn out one. */
  function Writable(c: Contents, limits: Limits, first: nat, n: nat): (k: nat)
    requires first + n <= |c.cycles|
    ensures k <= n && (forall j :: first <= j < first + k ==> !WornOut(c, limits, j))
    ensures k < n ==> WornOut(c, limits, first + k)
    decreases n
  {
    if n == 0 || WornOut(c, limits, first) then 0 else 1 + Writable(c, limits, first + 1, n - 1)
  }

  function Unmarked(erased: seq<bool>, first: nat, n: nat): (r: seq<bool>)
    ensures |r| == |erased|
  {
    seq(|erased|, i requires 0 <= i < |erased| => erased[i] && !(first <= i < first + n))
  }

  function LastSector(size: nat, address: nat, length: nat): nat
    requires size > 0
  {
    if length > 0 then SectorOf(size, address + length - 1) else SectorOf(size, address)
  }

  function SectorCount(size: nat, address: nat, length: nat): (n: nat)
    requires size > 0
    ensures n > 0
  {
    SectorsAscend(size, address, length);
    LastSector(size, address, length) - SectorOf(size, address) + 1
  }

  lemma SectorsAscend(size: nat, address: nat, length: nat)
    requires size > 0
    ensures length > 0 ==> SectorOf(size, address + length - 1) >= SectorOf(size, address)
  {
    if length > 0 {
      SectorHolds(size, address);
      SectorHolds(size, address + length - 1);
      Ordered(SectorOf(size, address + length - 1), SectorOf(size, address), size);
    }
  }

  /** Writing: all touched sectors up to a worn out one stop counting as erased; with none among them the data is
      programmed. */
  function Written(c: Contents, limits: Limits, size: nat, address: nat, data: Cells): Contents
    requires size > 0 && |c.cycles| == |c.erased|
    requires SectorOf(size, address) + SectorCount(size, address, |data|) <= |c.cycles|
  {
    if Exhausted(c, limits) then c else
    var first, n := SectorOf(size, address), SectorCount(size, address, |data|);
    var k := Writable(c, limits, first, n);
    c.(erased := Unmarked(c.erased, first, k),
       memory := if k == n then Programmed(c.memory, address, data) else c.memory)
  }

  /** A blank chip, into which a partition table has been loaded: every sector counts as erased. */
  predicate Loaded(c: Contents, chip_size: nat, size: nat, offset: nat, partitions: Cells) {
    && |c.erased| == |c.cycles| && chip_size == Start(|c.cycles|, size)
    && c.memory == Programmed(Blanks(chip_size), offset, partitions)
    && (forall i :: 0 <= i < |c.erased| ==> c.erased[i] && c.cycles[i] == 0) && c.total == 0
  }

  class SpiFlash {
    const chip_size: nat
    const block_size: nat
    const sector_size: nat
    const page_size: nat
    const memory: array<bv8>
    const erase_states: array<bool>
    const erase_cycles: array<nat>
    var erase_cycles_limit: nat
    var total_erase_cycles: nat
    var total_erase_cycles_limit: nat

    ghost predicate Valid() {
      && page_size > 0 && sector_size > 0 && Multiple(sector_size, page_size) && Multiple(block_size, sector_size)
      && memory.Length == chip_size == Start(erase_cycles.Length, sector_size)
      && erase_states.Length == erase_cycles.Length
      && memory as object != erase_states as object && memory as object != erase_cycles as object
      && erase_states as object != erase_cycles as object
    }

    ghost function Now(): Contents
      reads this, memory, erase_states, erase_cycles
    {
      Contents(memory[..], erase_states[..], erase_cycles[..], total_erase_cycles)
    }

    function CurrentLimits(): Limits
      reads this
    {
      Limits(erase_cycles_limit, total_erase_cycles_limit)
    }

    /** A blank chip, into which a partition table is loaded. */
    constructor (chip_size: nat, block_size: nat, sector_size: nat, page_size: nat, offset: nat, partitions: Cells)
      requires Multiple(sector_size, page_size) && Multiple(block_size, sector_size) && Multiple(chip_size, sector_size)
      requires sector_size > 0 && offset + |partitions| <= chip_size
      ensures Valid() && fresh(memory) && fresh(erase_states) && fresh(erase_cycles)
      ensures this.chip_size == chip_size && this.sector_size == sector_size && CurrentLimits() == Limits(0, 0)
      ensures Loaded(Now(), chip_size, sector_size, offset, partitions)
    {
      this.chip_size, this.block_size := chip_size, block_size;
      this.sector_size, this.page_size := sector_size, page_size;
      memory := new bv8[chip_size](i => if offset <= i < offset + |partitions| then partitions[i - offset] else BLANK);
      erase_states := new bool[chip_size / sector_size](_ => true);
      erase_cycles := new nat[chip_size / sector_size](_ => 0);
      erase_cycles_limit, total_erase_cycles, total_erase_cycles_limit := 0, 0, 0;
      new;
      DividesBack(chip_size, sector_size);
      forall k | 0 <= k < chip_size ensures memory[k] == Programmed(Blanks(chip_size), offset, partitions)[k] {
        if offset <= k < offset + |partitions| {
          BlankIsNeutral(partitions[k - offset]);
        }
      }
    }

    method ErasePage(page: nat)
      requires Valid() && Start(page, page_size) + page_size <= chip_size
      modifies memory
      ensures memory[..] == Erased(old(memory[..]), Start(page, page_size), page_size)
    {
      hide Multiple, Start;
      var start := Start(page, page_size);
      forall k | start <= k < start + page_size {
        memory[k] := BLANK;
      }
    }

    method ErasePages(sector: nat)
      requires Valid() && sector < erase_cycles.Length
      modifies memory
      ensures memory[..] == Erased(old(memory[..]), Start(sector, sector_size), sector_size)
    {
      ghost var before := memory[..];
      var pages_per_sector := sector_size / page_size;
      var start_page := Start(sector, pages_per_sector);
      DividesBack(sector_size, page_size);
      hide Multiple, Start;
      StartNested(sector, pages_per_sector, page_size);
      StartNext(0, page_size);
      assert Erased(before, Start(sector, sector_size), 0) == before;
      Ordered(sector, erase_cycles.Length, sector_size);
      var i: nat := 0;
      while i < pages_per_sector
        invariant i <= pages_per_sector
        invariant memory[..] == Erased(before, Start(sector, sector_size), Start(i, page_size))
      {
        Ordered(i, pages_per_sector, page_size);
        StartSplit(start_page, i, page_size);
        StartNext(i, page_size);
        ErasePage(start_page + i);
        ErasedAppend(before, Start(sector, sector_size), Start(i, page_size), page_size);
        i := i + 1;
      }
    }

    method EraseSector(sector: nat) returns (ok: bool)
      requires Valid() && sector < erase_cycles.Length
      modifies this`total_erase_cycles, memory, erase_states, erase_cycles
      ensures Now() == SectorErased(old(Now()), CurrentLimits(), sector_size, sector)
      ensures ok == (!Exhausted(old(Now()), CurrentLimits()) && !WornOut(old(Now()), CurrentLimits(), sector))
    {
      hide Multiple, Start, Erased;
      if total_erase_cycles_limit != 0 && total_erase_cycles >= total_erase_cycles_limit {
        return false;
      }
      if erase_cycles_limit != 0 && erase_cycles[sector] >= erase_cycles_limit {
        return false;
      }
      if erase_states[sector] {
        return true;
      }
      ErasePages(sector);
      erase_cycles[sector] := erase_cycles[sector] + 1;
      total_erase_cycles := total_erase_cycles + 1;
      erase_states[sector] := true;
      assert erase_cycles[..] == old(erase_cycles[..])[sector := old(erase_cycles[sector]) + 1];
      assert erase_states[..] == old(erase_states[..])[sector := true];
      ok := true;
    }

    /** Reports success whatever becomes of the single sectors. */
    method EraseBlock(block: nat) returns (ok: bool)
      requires Valid() && Start(block, block_size / sector_size) + block_size / sector_size <= erase_cycles.Length
      modifies this`total_erase_cycles, memory, erase_states, erase_cycles
      ensures ok
      ensures Now() == SectorsErased(old(Now()), CurrentLimits(), sector_size, Start(block, block_size / sector_size),
                                     block_size / sector_size)
    {
      var sectors_per_block := block_size / sector_size;
      var start_sector := Start(block, sectors_per_block);
      hide Multiple, Start, SectorErased;
      var i: nat := 0;
      while i < sectors_per_block
        invariant i <= sectors_per_block
        invariant Now() == SectorsErased(old(Now()), CurrentLimits(), sector_size, start_sector, i)
      {
        var result := EraseSector(start_sector + i);
        i := i + 1;
      }
      ok := true;
    }

    method Write(dest_addr: nat, src: Cells) returns (ok: bool)
      requires Valid() && dest_addr < chip_size && dest_addr + |src| <= chip_size
      modifies memory, erase_states
      ensures SectorOf(sector_size, dest_addr) + SectorCount(sector_size, dest_addr, |src|) <= |old(Now()).cycles|
      ensures Now() == Written(old(Now()), CurrentLimits(), sector_size, dest_addr, src)
      ensures ok == (!Exhausted(old(Now()), CurrentLimits()) &&
                     Writable(old(Now()), CurrentLimits(), SectorOf(sector_size, dest_addr),
                              SectorCount(sector_size, dest_addr, |src|))
                     == SectorCount(sector_size, dest_addr, |src|))
    {
      hide Multiple, Start, SectorOf, Writable, Unmarked, Programmed;
      var start := SectorOf(sector_size, dest_addr);
      var last := LastSector(sector_size, dest_addr, |src|);
      SectorsAscend(sector_size, dest_addr, |src|);
      SectorInChip(sector_size, erase_cycles.Length, dest_addr);
      if |src| > 0 {
        SectorInChip(sector_size, erase_cycles.Length, dest_addr + |src| - 1);
      }
      if total_erase_cycles_limit != 0 && total_erase_cycles >= total_erase_cycles_limit {
        return false;
      }
      var marked := MarkSectors(start, last);
      assert erase_cycles[..] == old(erase_cycles[..]);
      if !marked {
        assert memory[..] == old(memory[..]);
        return false;
      }
      Program(dest_addr, src);
      ok := true;
    }

    /** The sectors that are written no longer count as erased; the first worn out one ends the write. */
    method MarkSectors(start: nat, last: nat) returns (ok: bool)
      requires Valid() && start <= last < erase_cycles.Length
      modifies erase_states
      ensures var k := Writable(old(Now()), CurrentLimits(), start, last - start + 1);
              erase_states[..] == Unmarked(old(erase_states[..]), start, k) && ok == (k == last - start + 1)
    {
      hide Multiple, Start;
      ghost var before, limits := Now(), CurrentLimits();
      assert Unmarked(before.erased, start, 0) == before.erased;
      var i := start;
      while i <= last
        invariant start <= i <= last + 1
        invariant erase_states[..] == Unmarked(before.erased, start, i - start)
        invariant forall j :: start <= j < i ==> !WornOut(before, limits, j)
      {
        if erase_cycles_limit != 0 && erase_cycles[i] >= erase_cycles_limit {
          assert WornOut(before, limits, i);
          return false;
        }
        erase_states[i] := false;
        assert erase_states[..] == Unmarked(before.erased, start, i - start)[i := false];
        i := i + 1;
      }
      ok := true;
    }

    method Program(dest_addr: nat, src: Cells)
      requires dest_addr + |src| <= memory.Length
      modifies memory
      ensures memory[..] == Programmed(old(memory[..]), dest_addr, src)
    {
      ghost var before := memory[..];
      var ctr: nat := 0;
      ProgrammedNothing(before, dest_addr);
      assert src[..0] == [];
      while ctr < |src|
        invariant ctr <= |src| && memory[..] == Programmed(before, dest_addr, src[..ctr])
      {
        var data := src[ctr];
        var written := memory[dest_addr + ctr];
        data := data & written;
        assert written == before[dest_addr + ctr];
        memory[dest_addr + ctr] := data;
        assert memory[..] == Programmed(before, dest_addr, src[..ctr])[dest_addr + ctr := data];
        ProgramOne(before, dest_addr, src, ctr);
        ctr := ctr + 1;
      }
      assert src[..|src|] == src;
    }
  }

  lemma ProgramOne(m: Cells, a: nat, src: Cells, i: nat)
    requires i < |src| && a + i < |m|
    ensures Programmed(m, a, src[..i])[a + i := src[i] & m[a + i]] == Programmed(m, a, src[..i + 1])
  {
    assert src[i] & m[a + i] == m[a + i] & src[i];
  }

  // ---------------------------------------------------------------------------------------------
  // What the simulator keeps
  // ---------------------------------------------------------------------------------------------

  predicate BlankSector(m: Cells, size: nat, sector: nat) {
    forall k :: Start(sector, size) <= k < Start(sector, size) + size && k < |m| ==> m[k] == BLANK
  }

  /** A sector that counts as erased is blank. Loading a partition table breaks this. */
  predicate Honest(c: Contents, size: nat) {
    forall s :: 0 <= s < |c.erased| && c.erased[s] ==> BlankSector(c.memory, size, s)
  }

  lemma EraseKeepsHonest(c: Contents, limits: Limits, size: nat, sector: nat)
    requires sector < |c.cycles| == |c.erased| && Honest(c, size)
    ensures Honest(SectorErased(c, limits, size, sector), size)
  {
    hide Start;
    var r := SectorErased(c, limits, size, sector);
    if r != c {
      forall s | 0 <= s < |r.erased| && r.erased[s] ensures BlankSector(r.memory, size, s) {
        if s != sector {
          assert c.erased[s] && BlankSector(c.memory, size, s);
        }
      }
    }
  }

  /** Writing marks every sector that it programs in. */
  lemma WriteKeepsHonest(c: Contents, limits: Limits, size: nat, address: nat, data: Cells)
    requires size > 0 && |c.cycles| == |c.erased|
    requires SectorOf(size, address) + SectorCount(size, address, |data|) <= |c.cycles|
    requires Honest(c, size)
    ensures Honest(Written(c, limits, size, address, data), size)
  {
    hide Start, SectorOf, Writable;
    var r := Written(c, limits, size, address, data);
    forall s | 0 <= s < |r.erased| && r.erased[s] ensures BlankSector(r.memory, size, s) {
      assert c.erased[s] && BlankSector(c.memory, size, s);
      forall k | Start(s, size) <= k < Start(s, size) + size && k < |r.memory| ensures r.memory[k] == BLANK {
        if address <= k < address + |data| {
          InSector(size, s, k);
          SectorsAscend(size, address, k - address + 1);
          SectorsAscend(size, k, address + |data| - k);
        }
      }
    }
  }

  /** An erase that is not refused leaves the sector blank exactly if it was honestly marked. */
  lemma EraseBlanks(c: Contents, limits: Limits, size: nat, sector: nat)
    requires sector < |c.cycles| == |c.erased| && !Exhausted(c, limits) && !WornOut(c, limits, sector)
    ensures BlankSector(SectorErased(c, limits, size, sector).memory, size, sector)
       <==> (c.erased[sector] ==> BlankSector(c.memory, size, sector))
  {
    hide Start;
  }

  /** A byte of the partition table that is not blank makes the mark of its sector a lie, and the sector cannot be
      erased. */
  lemma LoadedSectorStays(c: Contents, chip_size: nat, size: nat, offset: nat, partitions: Cells, i: nat)
    requires size > 0 && offset + |partitions| <= chip_size && Loaded(c, chip_size, size, offset, partitions)
    requires i < |partitions| && partitions[i] != BLANK
    ensures var s := SectorOf(size, offset + i);
            s < |c.cycles| && !BlankSector(c.memory, size, s) && SectorErased(c, Limits(0, 0), size, s) == c
    ensures !Honest(c, size)
  {
    hide Start, SectorOf;
    var s := SectorOf(size, offset + i);
    SectorInChip(size, |c.cycles|, offset + i);
    SectorHolds(size, offset + i);
    BlankIsNeutral(partitions[i]);
    assert c.memory[offset + i] == partitions[i];
  }

  /** A chip is honest from the start exactly if nothing but blank bytes has been loaded. */
  lemma HonestFromTheStart(c: Contents, chip_size: nat, size: nat, offset: nat, partitions: Cells)
    requires size > 0 && offset + |partitions| <= chip_size && Loaded(c, chip_size, size, offset, partitions)
    ensures Honest(c, size) <==> forall i :: 0 <= i < |partitions| ==> partitions[i] == BLANK
  {
    hide Start, SectorOf;
    if i: nat :| i < |partitions| && partitions[i] != BLANK {
      LoadedSectorStays(c, chip_size, size, offset, partitions, i);
    }
  }

  /** Erasing several honest sectors of a chip without limits is one erase of their whole range. */
  lemma {:induction false} SectorsAreOneErase(c: Contents, size: nat, first: nat, n: nat)
    requires first + n <= |c.cycles| == |c.erased| && Honest(c, size)
    ensures var r := SectorsErased(c, Limits(0, 0), size, first, n);
            r.memory == Erased(c.memory, Start(first, size), Start(n, size)) && Honest(r, size)
    decreases n
  {
    StartNext(n, size);
    hide Start, Honest;
    if n == 0 {
      assert Erased(c.memory, Start(first, size), 0) == c.memory;
    } else {
      SectorsAreOneErase(c, size, first, n - 1);
      var before := SectorsErased(c, Limits(0, 0), size, first, n - 1);
      EraseKeepsHonest(before, Limits(0, 0), size, first + n - 1);
      StartSplit(first, n - 1, size);
      StartNext(n - 1, size);
      ErasedAppend(c.memory, Start(first, size), Start(n - 1, size), size);
      if before.erased[first + n - 1] {
        HonestStays(before, size, first + n - 1);
      }
    }
  }

  lemma HonestStays(c: Contents, size: nat, sector: nat)
    requires Honest(c, size) && sector < |c.erased| && c.erased[sector]
    ensures Erased(c.memory, Start(sector, size), size) == c.memory
  {
    assert BlankSector(c.memory, size, sector);
  }

  function Sum(s: seq<nat>): nat {
    if s == [] then 0 else s[0] + Sum(s[1..])
  }

  lemma {:induction false} SumUpdate(s: seq<nat>, i: nat, x: nat)
    requires i < |s|
    ensures Sum(s[i := x]) == Sum(s) - s[i] + x
  {
    if i > 0 {
      assert s[i := x][1..] == s[1..][i - 1 := x];
      SumUpdate(s[1..], i - 1, x);
    } else {
      assert s[0 := x][1..] == s[1..];
    }
  }

  /** The total is the sum over all sectors: erasing counts each cycle once, and writing none. */
  lemma CyclesAddUp(c: Contents, limits: Limits, size: nat, sector: nat)
    requires sector < |c.cycles| == |c.erased| && c.total == Sum(c.cycles)
    ensures SectorErased(c, limits, size, sector).total == Sum(SectorErased(c, limits, size, sector).cycles)
  {
    SumUpdate(c.cycles, sector, c.cycles[sector] + 1);
  }
}
