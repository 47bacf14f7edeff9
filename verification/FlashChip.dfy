/** The generic chip driver of spi_flash_chip_generic.c over the slicers of memspi_host_driver.c: one write or read
    cut into bus transfers. */
module FlashChip {
  import opened NorFlash

  const MAX_TRANSFER: nat := 64
  /** Sizes and addresses are 32-bit numbers. */
  const UINT32: nat := 0x1_0000_0000

  datatype Err = OK | NOT_SUPPORTED | INVALID_ARG | NOT_INITIALISED | PROTECTED | FAIL(code: int)

  /** What happens on the bus: it is acquired and released, which may be reported to have worked or not, and in between
      the device is accessed. */
  datatype Event =
    | Acquire
    | Release(ok: bool)
    | Program(address: nat, length: nat)
    | Read(address: nat, length: nat)
    | EraseSector(address: nat)
    | EraseBlock(address: nat)
    | Flush(address: nat, length: nat)
    | Query
    /** The operating system does not let the driver go on, or does not give it the bus. */
    | YieldRefused
    | AcquireRefused

  /** Whether the bus is held, and whether it was always acquired when free, and released and used when held. */
  datatype BusState = BusState(fine: bool, held: bool)

  const FREE: BusState := BusState(true, false)
  const HELD: BusState := BusState(true, true)

  function BusStep(b: BusState, e: Event): BusState {
    match e
    case Acquire => BusState(b.fine && !b.held, true)
    case Release(_) => BusState(b.fine && b.held, false)
    case YieldRefused => b
    case AcquireRefused => b
    case _ => BusState(b.fine && b.held, b.held)
  }

  function Bus(log: seq<Event>): BusState
    decreases |log|
  {
    if log == [] then FREE else BusStep(Bus(log[..|log| - 1]), log[|log| - 1])
  }

  lemma BusAppend(log: seq<Event>, e: Event)
    ensures Bus(log + [e]) == BusStep(Bus(log), e)
  {
    assert (log + [e])[..|log|] == log;
  }

  // ---------------------------------------------------------------------------------------------
  // Slicers
  // ---------------------------------------------------------------------------------------------

  function Min(a: nat, b: nat): nat {
    if a < b then a else b
  }

  datatype Slice = Slice(address: nat, length: nat)

  /** Double transfer rate needs even addresses and lengths. */
  function Widened(address: nat, len: nat, dtr: bool): Slice {
    if !dtr then Slice(address, len)
    else if address % 2 != 0 && len % 2 != 0 then Slice(address - 1, len + 1)
    else if address % 2 != 0 && len % 2 == 0 then Slice(address - 1, len + 2)
    else if address % 2 == 0 && len % 2 != 0 then Slice(address, len + 1)
    else Slice(address, len)
  }

  /** `memspi_host_write_data_slicer`. */
  function WriteDataSlicer(address: nat, len: nat, dtr: bool, page_size: nat): Slice
    requires page_size > 0
  {
    var w := Widened(address, len, dtr);
    var end_bound := Start(SectorOf(page_size, w.address) + 1, page_size);
    SectorHolds(page_size, w.address);
    StartNext(SectorOf(page_size, w.address), page_size);
    Slice(w.address, Min(Min(end_bound - w.address, MAX_TRANSFER), w.length))
  }

  /** `memspi_host_read_data_slicer`. */
  function ReadDataSlicer(address: nat, len: nat, dtr: bool): Slice {
    var w := Widened(address, len, dtr);
    Slice(w.address, Min(MAX_TRANSFER, w.length))
  }

  /** Holds the requested address behind at most one byte of padding, and is no longer than a transfer. */
  predicate Covers(s: Slice, address: nat, len: nat, dtr: bool) {
    && s.address <= address <= s.address + 1 && address < s.address + s.length
    && s.length <= MAX_TRANSFER && s.address + s.length <= address + len + 1
    && (dtr ==> s.address % 2 == 0 && s.length % 2 == 0)
    && (!dtr ==> s.address == address && s.address + s.length <= address + len)
  }

  predicate OnePage(s: Slice, page_size: nat)
    requires page_size > 0
  {
    s.length > 0 && SectorOf(page_size, s.address + s.length - 1) == SectorOf(page_size, s.address)
  }

  lemma WidenedCovers(address: nat, len: nat, dtr: bool)
    requires len > 0
    ensures var w := Widened(address, len, dtr);
            && w.address <= address <= w.address + 1 && address + len <= w.address + w.length <= address + len + 1
            && (dtr ==> w.address % 2 == 0 && w.length % 2 == 0)
            && (!dtr ==> w.address == address && w.length == len)
  {}

  lemma EvenStart(i: nat, size: nat)
    requires size % 2 == 0
    ensures Start(i, size) % 2 == 0
  {
    assert i * size == (i * (size / 2)) * 2;
  }

  lemma WriteSliceCovers(address: nat, len: nat, dtr: bool, page_size: nat)
    requires len > 0 && page_size > 0 && (dtr ==> page_size % 2 == 0)
    ensures var s := WriteDataSlicer(address, len, dtr, page_size);
            Covers(s, address, len, dtr) && OnePage(s, page_size)
  {
    var w := Widened(address, len, dtr);
    var page := SectorOf(page_size, w.address);
    WidenedCovers(address, len, dtr);
    SectorHolds(page_size, w.address);
    StartNext(page, page_size);
    if dtr {
      EvenStart(page + 1, page_size);
    }
    hide SectorOf, Start, Widened;
    var end_bound := Start(page + 1, page_size);
    var s := WriteDataSlicer(address, len, dtr, page_size);
    InSector(page_size, page, s.address + s.length - 1);
    CutCovers(w, address, len, dtr, end_bound);
  }

  /** Cutting the widened range at a bound behind its start, even where that matters, still covers the first byte. */
  lemma CutCovers(w: Slice, address: nat, len: nat, dtr: bool, end_bound: nat)
    requires len > 0 && w.address <= address <= w.address + 1
    requires address + len <= w.address + w.length <= address + len + 1
    requires w.address < end_bound
    requires dtr ==> w.address % 2 == 0 && w.length % 2 == 0 && end_bound % 2 == 0
    requires !dtr ==> w.address == address && w.length == len
    ensures Covers(Slice(w.address, Min(Min(end_bound - w.address, MAX_TRANSFER), w.length)), address, len, dtr)
  {}

  lemma ReadSliceCovers(address: nat, len: nat, dtr: bool)
    requires len > 0
    ensures Covers(ReadDataSlicer(address, len, dtr), address, len, dtr)
  {
    WidenedCovers(address, len, dtr);
  }

  /** An even chip holds the padding of its last byte. */
  lemma SliceInChip(s: Slice, address: nat, len: nat, dtr: bool, size: nat)
    requires Covers(s, address, len, dtr) && address + len <= size && (dtr ==> size % 2 == 0)
    ensures s.address + s.length <= size
  {}

  /** Where the requested bytes lie in a slice. */
  lemma SliceParts(s: Slice, address: nat, len: nat, dtr: bool)
    requires Covers(s, address, len, dtr) && len > 0
    ensures s.address <= address && s.length <= MAX_TRANSFER
    ensures var data_len := Min(s.address + s.length, address + len) - address;
            0 < data_len <= len && (address - s.address) + data_len <= s.length
  {}

  // ---------------------------------------------------------------------------------------------
  // The chip
  // ---------------------------------------------------------------------------------------------

  class Chip {
    const size: nat
    const page_size: nat
    const sector_size: nat
    const block_erase_size: nat
    const dtr: bool
    var memory: Cells
    ghost var log: seq<Event>
    /** How often the driver or the operating system has answered with an error. */
    ghost var failures: nat

    constructor (memory: Cells, page_size: nat, sector_size: nat, block_erase_size: nat, dtr: bool)
      ensures this.memory == memory && log == [] && failures == 0 && size == |memory|
      ensures this.page_size == page_size && this.sector_size == sector_size
      ensures this.block_erase_size == block_erase_size
      ensures this.dtr == dtr
    {
      this.memory, this.page_size, this.sector_size, this.block_erase_size, this.dtr :=
        memory, page_size, sector_size, block_erase_size, dtr;
      size, log, failures := |memory|, [], 0;
    }

    ghost predicate Valid()
      reads this
    {
      && |memory| == size < UINT32 && page_size > 0
      && (dtr ==> page_size % 2 == 0 && size % 2 == 0)
    }

    /** Every error has its cause in an answer since there were so many: without a new one all is well. */
    ghost predicate Succeeds(before: nat, err: Err)
      reads this
    {
      failures >= before && (failures == before ==> err == OK)
    }

    /** Commands that leave the cells alone: what they return is up to the device. */
    method Command() returns (err: Err)
      modifies this`failures
      ensures failures == if err == OK then old(failures) else old(failures) + 1
    {
      err := *;
      if err != OK {
        failures := failures + 1;
      }
    }

    method HostProgramPage(buffer: Cells, address: nat)
      requires Valid() && address + |buffer| <= size
      modifies this`memory, this`log
      ensures Valid() && memory == Programmed(old(memory), address, buffer)
      ensures log == old(log) + [Program(address, |buffer|)]
    {
      memory := Programmed(memory, address, buffer);
      log := log + [Program(address, |buffer|)];
    }

    method HostRead(address: nat, read_len: nat) returns (err: Err, data: Cells)
      requires Valid() && address + read_len <= size
      modifies this`log, this`failures
      ensures failures == if err == OK then old(failures) else old(failures) + 1
      ensures |data| == read_len && (err == OK ==> data == memory[address..address + read_len])
      ensures log == old(log) + [Read(address, read_len)]
    {
      log := log + [Read(address, read_len)];
      err := *;
      data := *;
      if err == OK || |data| != read_len {
        data := memory[address..address + read_len];
      }
      if err != OK {
        failures := failures + 1;
      }
    }

    method HostErase(address: nat, length: nat, ghost e: Event)
      requires Valid() && address + length <= size
      modifies this`memory, this`log
      ensures Valid() && memory == Erased(old(memory), address, length) && log == old(log) + [e]
    {
      memory := Erased(memory, address, length);
      log := log + [e];
    }

    /** `spi_flash_chip_generic_page_program`. */
    method PageProgram(buffer: Cells, address: nat) returns (err: Err)
      requires Valid() && address + |buffer| <= size
      modifies this
      ensures Valid()
      ensures (memory == Programmed(old(memory), address, buffer) && log == old(log) + [Program(address, |buffer|)])
           || (err != OK && memory == old(memory) && log == old(log))
      ensures Succeeds(old(failures), err)
    {
      err := Command();
      if err == OK || err == NOT_SUPPORTED {
        HostProgramPage(buffer, address);
        err := Command();
        if err == NOT_SUPPORTED {
          err := Command();
        }
      }
    }

    /** `spi_flash_chip_generic_erase_sector` and, for a whole block, `spi_flash_chip_generic_erase_block`. */
    method Erase(address: nat, length: nat, ghost e: Event) returns (err: Err)
      requires Valid() && address + length <= size
      modifies this
      ensures Valid()
      ensures (memory == Erased(old(memory), address, length) && log == old(log) + [e])
           || (err != OK && memory == old(memory) && log == old(log))
      ensures Succeeds(old(failures), err)
    {
      err := Command();
      if err == OK {
        err := Command();
      }
      if err == OK || err == NOT_SUPPORTED {
        HostErase(address, length, e);
        err := Command();
      }
      if err == NOT_SUPPORTED {
        err := Command();
      }
    }

    /** `spi_flash_chip_generic_write`: of the data the first `done` bytes have been programmed, all of them if it
        returns OK, each time in one page and at most 64 bytes. */
    method Write(buffer: Cells, address: nat) returns (err: Err, ghost done: nat)
      requires Valid() && address + |buffer| <= size
      modifies this
      ensures Valid() && done <= |buffer| && (err == OK ==> done == |buffer|)
      ensures memory == Programmed(old(memory), address, buffer[..done])
      ensures OnlyPrograms(old(log), log, page_size, size)
      ensures Succeeds(old(failures), err)
    {
      hide SectorOf, Start, Programmed, WriteDataSlicer, OnePage, Covers, Min;
      err := OK;
      done := 0;
      ProgrammedNothing(memory, address);
      var temp_buffer := new bv8[MAX_TRANSFER];
      var at: nat := 0;
      while err == OK && at < |buffer|
        invariant Valid() && at <= |buffer| && done <= |buffer| && (err == OK ==> done == at)
        invariant memory == Programmed(old(memory), address, buffer[..done])
        invariant OnlyPrograms(old(log), log, page_size, size) && Succeeds(old(failures), err)
        decreases |buffer| - at, err == OK
      {
        ghost var before, so_far := memory, log;
        forall i | 0 <= i < temp_buffer.Length {
          temp_buffer[i] := BLANK;
        }
        var slice := WriteDataSlicer(address + at, |buffer| - at, dtr, page_size);
        WriteSliceCovers(address + at, |buffer| - at, dtr, page_size);
        SliceInChip(slice, address + at, |buffer| - at, dtr, size);
        SliceParts(slice, address + at, |buffer| - at, dtr);
        var left_off := address + at - slice.address;
        var write_len := Min(slice.address + slice.length, address + |buffer|) - (address + at);
        forall i | 0 <= i < write_len {
          temp_buffer[left_off + i] := buffer[at + i];
        }
        ghost var padded := Blanks(left_off) + buffer[at..at + write_len] + Blanks(slice.length - left_off - write_len);
        assert temp_buffer[..slice.length] == padded;
        err := Command();
        if err == OK {
          err := PageProgram(temp_buffer[..slice.length], slice.address);
          ProgrammedPadded(before, address + at, left_off, buffer[at..at + write_len],
                           slice.length - left_off - write_len);
          assert buffer[..at] + buffer[at..at + write_len] == buffer[..at + write_len];
          ProgrammedAppend(old(memory), address, buffer[..at], buffer[at..at + write_len]);
          at := at + write_len;
          if log != so_far {
            done := at;
          }
        }
      }
      assert buffer[..|buffer|] == buffer;
    }

    /** `spi_flash_chip_generic_read`: padding bytes are read but not delivered. */
    method ReadData(address: nat, length: nat) returns (err: Err, buffer: Cells)
      requires Valid() && address + length <= size
      modifies this`log, this`failures
      ensures err == OK ==> buffer == memory[address..address + length]
      ensures OnlyReads(old(log), log) && Succeeds(old(failures), err)
    {
      buffer := [];
      err := Command();
      if err == NOT_SUPPORTED {
        return;
      }
      var at: nat := 0;
      while err == OK && at < length
        invariant at <= length && (err == OK ==> buffer == memory[address..address + at])
        invariant OnlyReads(old(log), log) && Succeeds(old(failures), err)
        decreases length - at, err == OK
      {
        var data;
        err, data := ReadSlice(address + at, length - at);
        JoinSlices(memory, address, at, |data|);
        buffer := buffer + data;
        at := at + |data|;
      }
    }

    /** One round: a transfer, and the bytes of it that were asked for. */
    method ReadSlice(address: nat, length: nat) returns (err: Err, data: Cells)
      requires Valid() && address + length <= size && length > 0
      modifies this`log, this`failures
      ensures 0 < |data| <= length && (err == OK ==> data == memory[address..address + |data|])
      ensures OnlyReads(old(log), log) && Succeeds(old(failures), err)
    {
      hide ReadDataSlicer, Covers, Min;
      var slice := ReadDataSlicer(address, length, dtr);
      ReadSliceCovers(address, length, dtr);
      SliceInChip(slice, address, length, dtr, size);
      SliceParts(slice, address, length, dtr);
      var left_off := address - slice.address;
      var data_len := Min(slice.address + slice.length, address + length) - address;
      var temp_buffer;
      err, temp_buffer := HostRead(slice.address, slice.length);
      SubSlice(memory, slice.address, slice.length, left_off, data_len);
      data := temp_buffer[left_off..left_off + data_len];
    }
  }

  lemma SubSlice(m: Cells, a: nat, n: nat, from: nat, length: nat)
    requires a + n <= |m| && from + length <= n
    ensures m[a..a + n][from..from + length] == m[a + from..a + from + length]
  {
    var whole, part := m[a..a + n], m[a + from..a + from + length];
    assert forall k :: 0 <= k < length ==> whole[from + k] == part[k];
  }

  lemma JoinSlices(m: Cells, a: nat, x: nat, y: nat)
    requires a + x + y <= |m|
    ensures m[a..a + x] + m[a + x..a + x + y] == m[a..a + (x + y)]
  {}

  /** The events since `before` are programs of a page or part of one, inside the chip. */
  ghost predicate OnlyPrograms(before: seq<Event>, now: seq<Event>, page_size: nat, size: nat)
    requires page_size > 0
  {
    before <= now &&
    forall i :: |before| <= i < |now| ==>
      && now[i].Program? && now[i].length <= MAX_TRANSFER && now[i].address + now[i].length <= size
      && OnePage(Slice(now[i].address, now[i].length), page_size)
  }

  ghost predicate OnlyReads(before: seq<Event>, now: seq<Event>) {
    before <= now && forall i :: |before| <= i < |now| ==> now[i].Read? && now[i].length <= MAX_TRANSFER
  }

  /** Accesses keep the bus as it is, and are fine while it is held. */
  lemma {:induction false} AccessesKeepBus(before: seq<Event>, now: seq<Event>)
    requires before <= now && forall i :: |before| <= i < |now| ==> now[i] != Acquire && !now[i].Release?
    requires Bus(before) == HELD
    ensures Bus(now) == HELD
    decreases |now|
  {
    if before != now {
      AccessesKeepBus(before, now[..|now| - 1]);
    } else {
      assert now == before;
    }
  }

  lemma ProgrammedAt(m: Cells, a: nat, buffer: Cells, from: nat, data: Cells)
    requires a + |buffer| <= |m| && from + |data| <= |buffer|
    requires data == Programmed(m, a, buffer)[a + from..a + from + |data|]
    ensures forall k :: 0 <= k < |data| ==> data[k] == m[a + from + k] & buffer[from + k]
  {}

  /** What was written can be read back, wherever the transfers of the two were cut. */
  method WriteThenRead(chip: Chip, buffer: Cells, address: nat, from: nat, length: nat)
    returns (written: Err, read: Err, data: Cells)
    requires chip.Valid() && address + |buffer| <= chip.size && from + length <= |buffer|
    modifies chip
    ensures chip.failures == old(chip.failures) ==> written == OK && read == OK
    ensures written == OK && read == OK ==>
              |data| == length &&
              forall k :: 0 <= k < length ==> data[k] == old(chip.memory)[address + from + k] & buffer[from + k]
  {
    ghost var done;
    hide Programmed, OnlyPrograms, OnlyReads;
    written, done := chip.Write(buffer, address);
    assert buffer[..|buffer|] == buffer;
    read, data := chip.ReadData(address + from, length);
    if written == OK && read == OK {
      ProgrammedAt(old(chip.memory), address, buffer, from, data);
    }
  }
}
