/** esp_flash_api.c: writing, reading and erasing in chunks, with the bus released between them. */
module FlashApi {
  import opened NorFlash
  import opened FlashChip
  import opened Bytes

  const MAX_WRITE_CHUNK: nat := 8192
  const MAX_READ_CHUNK: nat := 16384
  /** `temp_buf`, eight 32-bit words. */
  const TEMP_BUFFER: nat := 32

  /** The check at the head of the three functions, in 32-bit arithmetic. */
  predicate RangeAccepted(address: nat, length: nat, size: nat) {
    !(address > size || (address + length) % UINT32 > size)
  }

  /** It accepts exactly what lies inside the chip, and what wraps around the 32-bit address space far enough. */
  lemma RangeCheckIsExact(address: nat, length: nat, size: nat)
    requires address < UINT32 && length < UINT32 && size < UINT32
    ensures RangeAccepted(address, length, size)
       <==> || address + length <= size
            || (address <= size && address + length >= UINT32 && address + length - UINT32 <= size)
  {}

  /** One that reaches exactly to the end of the address space, say, from wherever in the chip it starts. */
  lemma WrappingRangeIsAccepted(address: nat, size: nat)
    requires 0 < address <= size < UINT32
    ensures RangeAccepted(address, UINT32 - address, size) && address + (UINT32 - address) > size
  {}

  // ---------------------------------------------------------------------------------------------
  // The bus
  // ---------------------------------------------------------------------------------------------

  /** `spiflash_start_default`. */
  method StartBus(chip: Chip) returns (err: Err)
    modifies chip`log, chip`failures
    ensures chip.log == old(chip.log) + [if err == OK then Acquire else AcquireRefused]
    ensures Bus(old(chip.log)) == FREE ==> Bus(chip.log) == if err == OK then HELD else FREE
    ensures chip.Succeeds(old(chip.failures), err)
  {
    err := chip.Command();
    ghost var e := if err == OK then Acquire else AcquireRefused;
    BusAppend(chip.log, e);
    chip.log := chip.log + [e];
  }

  /** `yield`, before every chunk. */
  method Yield(chip: Chip) returns (err: Err)
    modifies chip`log, chip`failures
    ensures chip.log == if err == OK then old(chip.log) else old(chip.log) + [YieldRefused]
    ensures Bus(chip.log) == Bus(old(chip.log))
    ensures chip.Succeeds(old(chip.failures), err)
  {
    hide Bus;
    err := chip.Command();
    if err != OK {
      BusAppend(chip.log, YieldRefused);
      chip.log := chip.log + [YieldRefused];
    }
  }

  /** `spiflash_end_default`: an error of its own is reported only if there was none before. */
  method EndBus(chip: Chip, e: Err) returns (err: Err, ghost ok: bool)
    modifies chip`log, chip`failures
    ensures chip.log == old(chip.log) + [Release(ok)]
    ensures err == OK <==> e == OK && ok
    ensures e != OK ==> err == e
    ensures chip.failures >= old(chip.failures) && (chip.failures == old(chip.failures) ==> ok && err == e)
    ensures Bus(old(chip.log)) == HELD ==> Bus(chip.log) == FREE
    ensures Bus(old(chip.log)) != HELD ==> Bus(chip.log) == BusState(false, false)
  {
    hide Bus;
    err := chip.Command();
    ok := err == OK;
    BusAppend(chip.log, Release(ok));
    chip.log := chip.log + [Release(ok)];
    if e != OK {
      err := e;
    }
  }

  // Of the releases since `before`, which have worked: all, or all but perhaps the last.

  ghost predicate EndsWork(before: seq<Event>, now: seq<Event>) {
    before <= now && forall i :: |before| <= i < |now| && now[i].Release? ==> now[i].ok
  }

  ghost predicate EarlierEndsWork(before: seq<Event>, now: seq<Event>) {
    before <= now &&
    forall i, j :: |before| <= i < j < |now| && now[i].Release? && now[j].Release? ==> now[i].ok
  }

  /** Nothing since `before`, but perhaps the last event, is a release. */
  ghost predicate OnlyLastEnds(before: seq<Event>, now: seq<Event>) {
    before <= now && forall i :: |before| <= i < |now| - 1 ==> !now[i].Release?
  }

  ghost predicate NoEnds(before: seq<Event>, now: seq<Event>) {
    before <= now && forall i :: |before| <= i < |now| ==> !now[i].Release?
  }

  lemma EndsWorkOn(before: seq<Event>, between: seq<Event>, now: seq<Event>)
    requires before <= between
    ensures NoEnds(between, now) ==> (EndsWork(before, now) <==> EndsWork(before, between))
    ensures EndsWork(before, between) && EndsWork(between, now) ==> EndsWork(before, now)
    ensures EndsWork(before, between) && EarlierEndsWork(between, now) ==> EarlierEndsWork(before, now)
    ensures EndsWork(before, between) && between <= now && !EarlierEndsWork(between, now) ==>
              !EarlierEndsWork(before, now)
  {}

  /** What follows the last chunk decides nothing about the releases between the chunks. */
  lemma EndsAtLast(before: seq<Event>, between: seq<Event>, now: seq<Event>)
    requires before <= between && OnlyLastEnds(between, now)
    ensures EndsWork(before, between) ==> EarlierEndsWork(before, now)
    ensures EndsWork(before, between) && between < now && now[|now| - 1] == Release(true) ==> EndsWork(before, now)
    ensures !EndsWork(before, between) && between < now && now[|now| - 1].Release? ==> !EarlierEndsWork(before, now)
  {
    if !EndsWork(before, between) && between < now && now[|now| - 1].Release? {
      var i :| |before| <= i < |between| && between[i] == Release(false);
      assert now[i] == between[i];
    }
  }

  /** The last thing since `before` is that the cache was flushed for this range and the bus released. */
  ghost predicate Flushed(before: seq<Event>, now: seq<Event>, address: nat, length: nat) {
    && before <= now && |before| + 2 <= |now|
    && now[|now| - 2] == Flush(address, length) && now[|now| - 1].Release?
  }

  /** The last thing is that the driver was not let go on, or twice in a row was not given the bus; and the cache has
      not been flushed. */
  ghost predicate Refused(before: seq<Event>, now: seq<Event>) {
    && Unflushed(before, now) && before < now
    && (now[|now| - 1] == YieldRefused
        || (|before| + 2 <= |now| && now[|now| - 2] == now[|now| - 1] == AcquireRefused))
  }

  ghost predicate Unflushed(before: seq<Event>, now: seq<Event>) {
    before <= now && forall i :: |before| <= i < |now| ==> !now[i].Flush?
  }

  lemma UnflushedNext(before: seq<Event>, log: seq<Event>, e: Event)
    requires Unflushed(before, log) && !e.Flush?
    ensures Unflushed(before, log + [e])
  {}

  lemma UnflushedPrograms(before: seq<Event>, log: seq<Event>, now: seq<Event>, page_size: nat, size: nat)
    requires page_size > 0 && Unflushed(before, log) && OnlyPrograms(log, now, page_size, size)
    ensures Unflushed(before, now)
  {
    hide OnePage;
  }

  /** How `flash_end_flush_cache` goes on behind `log`: it flushes the cache and releases the bus, after acquiring it
      again if need be. */
  ghost predicate FlushFollows(log: seq<Event>, now: seq<Event>, held: bool, address: nat, length: nat, worked: bool) {
    now == log + (if held then [] else [Acquire]) + [Flush(address, length), Release(worked)]
  }

  ghost predicate FlushEnds(log: seq<Event>, now: seq<Event>, held: bool, address: nat, length: nat, err: Err) {
    || FlushFollows(log, now, held, address, length, true)
    || (err != OK && FlushFollows(log, now, held, address, length, false))
    || (err != OK && !held && now == log + [AcquireRefused])
  }

  /** What an operation that began at `before` has then done. */
  lemma FlushedOrRefused(before: seq<Event>, between: seq<Event>, now: seq<Event>, held: bool, address: nat,
                         length: nat, err: Err)
    requires Unflushed(before, between) && FlushEnds(between, now, held, address, length, err)
    requires !held ==> AskedOnce(before, between)
    ensures Flushed(before, now, address, length) || (err != OK && Refused(before, now))
    ensures between < now && (held ==> now[|now| - 1].Release?) && (err == OK ==> now[|now| - 1] == Release(true))
  {}

  /** The bus has been asked for once in vain. */
  ghost predicate AskedOnce(before: seq<Event>, now: seq<Event>) {
    before < now && now[|now| - 1] == AcquireRefused
  }

  lemma RefusedNow(before: seq<Event>, log: seq<Event>)
    requires Unflushed(before, log)
    ensures Refused(before, log + [YieldRefused])
  {
    RefusalIsNothing(before, log, YieldRefused);
  }

  lemma NoProgramsIn(log: seq<Event>)
    ensures NoPrograms(log, log + [Acquire]) && NoPrograms(log, log + [AcquireRefused])
    ensures NoPrograms(log, log + [Release(true)]) && NoPrograms(log, log + [Release(false)])
  {}

  /** A refusal takes nothing away from what an operation that began at `before` has done. */
  lemma RefusalIsNothing(before: seq<Event>, log: seq<Event>, e: Event)
    requires before <= log && (e.YieldRefused? || e.AcquireRefused?)
    ensures EndsWork(before, log + [e]) <==> EndsWork(before, log)
    ensures EndsWork(before, log) ==> EarlierEndsWork(before, log + [e])
    ensures ErasesOf(log + [e]) == ErasesOf(log) && NoPrograms(log, log + [e])
    ensures Unflushed(before, log) ==> Unflushed(before, log + [e])
  {
    hide ErasesOf;
    EndsWorkOn(before, log, log + [e]);
    ErasesAppend(log, e);
  }

  /** `flash_end_flush_cache`. It takes the caller's word on whether the bus is held. */
  method EndFlushCache(chip: Chip, e: Err, bus_acquired: bool, address: nat, length: nat) returns (err: Err)
    modifies chip`log, chip`failures
    ensures e != OK ==> err == e
    ensures Bus(old(chip.log)) == (if bus_acquired then HELD else FREE) ==> Bus(chip.log) == FREE
    ensures bus_acquired && Bus(old(chip.log)) == FREE ==> Bus(chip.log) == BusState(false, false)
    ensures OnlyLastEnds(old(chip.log), chip.log)
    ensures FlushEnds(old(chip.log), chip.log, bus_acquired, address, length, err)
    ensures ErasesOf(chip.log) == ErasesOf(old(chip.log)) && NoPrograms(old(chip.log), chip.log)
    ensures chip.failures >= old(chip.failures) && (chip.failures == old(chip.failures) ==> err == e)
  {
    hide Bus, ErasesOf;
    ghost var before := chip.log;
    if !bus_acquired {
      ErasesAppend(before, Acquire);
      ErasesAppend(before, AcquireRefused);
      var acquire_err := StartBus(chip);
      if acquire_err != OK {
        return if e == OK then acquire_err else e;
      }
    }
    BusAppend(chip.log, Flush(address, length));
    ErasesAppend(chip.log, Flush(address, length));
    chip.log := chip.log + [Flush(address, length)];
    var flush_err := chip.Command();
    ghost var flushed, ok := chip.log, false;
    err, ok := EndBus(chip, if e == OK then flush_err else e);
    ErasesAppend(flushed, Release(ok));
  }

  // ---------------------------------------------------------------------------------------------
  // Writing
  // ---------------------------------------------------------------------------------------------

  /** Among the events since `before` are no programs. */
  ghost predicate NoPrograms(before: seq<Event>, now: seq<Event>) {
    before <= now && forall i :: |before| <= i < |now| ==> !now[i].Program?
  }

  /** The programs among the events since `before` stay in one page each and inside the chip. */
  ghost predicate FinePrograms(before: seq<Event>, now: seq<Event>, page_size: nat, size: nat)
    requires page_size > 0
  {
    before <= now && forall i :: |before| <= i < |now| && now[i].Program? ==>
      && now[i].length <= MAX_TRANSFER && now[i].address + now[i].length <= size
      && OnePage(Slice(now[i].address, now[i].length), page_size)
  }

  lemma FineOn(before: seq<Event>, between: seq<Event>, now: seq<Event>, page_size: nat, size: nat)
    requires page_size > 0 && FinePrograms(before, between, page_size, size)
    requires NoPrograms(between, now) || OnlyPrograms(between, now, page_size, size)
    ensures FinePrograms(before, now, page_size, size)
  {
    hide OnePage;
    forall i | |before| <= i < |now| && now[i].Program?
      ensures now[i].length <= MAX_TRANSFER && now[i].address + now[i].length <= size
      ensures OnePage(Slice(now[i].address, now[i].length), page_size)
    {
      if i < |between| {
        assert now[i] == between[i];
      }
    }
  }

  /** `esp_flash_write`. Whatever fails, the first `done` bytes have been programmed and no others, and the bus is
      acquired, used and released properly exactly if every release before the last one has worked. */
  method Write(chip: Chip, buffer: Cells, address: nat, direct_write: bool) returns (err: Err, ghost done: nat)
    requires chip.Valid() && address + |buffer| < UINT32
    modifies chip
    ensures chip.Valid() && done <= |buffer| && (err == OK ==> done == |buffer|)
    ensures address + |buffer| > chip.size ==> err == INVALID_ARG && done == 0
    ensures done > 0 ==> address + |buffer| <= chip.size
    ensures chip.memory == Programmed(old(chip.memory), address, buffer[..done])
    ensures old(chip.log) <= chip.log
    ensures Bus(old(chip.log)) == FREE ==>
              Bus(chip.log) == if EarlierEndsWork(old(chip.log), chip.log) then FREE else BusState(false, false)
    ensures err == OK ==> EndsWork(old(chip.log), chip.log)
    ensures buffer != [] && address + |buffer| <= chip.size ==>
              Flushed(old(chip.log), chip.log, address, |buffer|) || (err != OK && Refused(old(chip.log), chip.log))
    ensures buffer == [] || address + |buffer| > chip.size ==> chip.log == old(chip.log)
    ensures FinePrograms(old(chip.log), chip.log, chip.page_size, chip.size)
    ensures address + |buffer| <= chip.size ==> chip.Succeeds(old(chip.failures), err)
  {
    hide Programmed, OnePage, FinePrograms, OnlyPrograms, Bus, BusStep, EndsWork, EarlierEndsWork, OnlyLastEnds;
    hide Flushed, FlushEnds, Unflushed, NoPrograms, ErasesOf;
    NoEndsYet(chip.log);
    NoProgramsYet(chip.log, chip.page_size, chip.size);
    ghost var lost := false;
    done := 0;
    ProgrammedNothing(chip.memory, address);
    if !RangeAccepted(address, |buffer|, chip.size) {
      return INVALID_ARG, 0;
    }
    if buffer == [] {
      return OK, 0;
    }
    var write_addr: nat := 0;
    var bus_acquired := false;
    var going := true;
    err := OK;
    while going
      invariant chip.Valid() && done <= write_addr <= |buffer| && (going ==> done == write_addr < |buffer|)
      invariant going ==> err == OK && !bus_acquired && !lost
      invariant !going && err == OK ==> done == |buffer|
      invariant lost ==> bus_acquired && err != OK
      invariant Unflushed(old(chip.log), chip.log) && (!going && !bus_acquired ==> AskedOnce(old(chip.log), chip.log))
      invariant chip.memory == Programmed(old(chip.memory), address, buffer[..done])
      invariant Bus(old(chip.log)) == FREE ==> Bus(chip.log) == if bus_acquired && !lost then HELD else FREE
      invariant old(chip.log) <= chip.log && (EndsWork(old(chip.log), chip.log) <==> !lost)
      invariant FinePrograms(old(chip.log), chip.log, chip.page_size, chip.size)
      invariant chip.Succeeds(old(chip.failures), err)
      decreases |buffer| - write_addr, going
    {
      ghost var at_start := chip.log;
      var write_len := Min(|buffer| - write_addr, if direct_write then MAX_WRITE_CHUNK else TEMP_BUFFER);
      var write_buf := buffer[write_addr..write_addr + write_len];
      RefusalIsNothing(old(chip.log), at_start, YieldRefused);
      RefusalIsNothing(old(chip.log), at_start, AcquireRefused);
      err := Yield(chip);
      if err != OK {
        RefusedNow(old(chip.log), at_start);
        FineOn(old(chip.log), at_start, chip.log, chip.page_size, chip.size);
        return;
      }
      err := StartBus(chip);
      if err != OK {
        FineOn(old(chip.log), at_start, chip.log, chip.page_size, chip.size);
        going := false;
      } else {
        bus_acquired := true;
        UnflushedNext(old(chip.log), at_start, Acquire);
        NoProgramsIn(at_start);
        ghost var before, more := chip.log, 0;
        FineOn(old(chip.log), at_start, before, chip.page_size, chip.size);
        AcquireIsNoEnd(old(chip.log), at_start);
        err, more := chip.Write(write_buf, address + write_addr);
        FineOn(old(chip.log), before, chip.log, chip.page_size, chip.size);
        ProgramsAreNoEnds(old(chip.log), before, chip.log, chip.page_size, chip.size);
        UnflushedPrograms(old(chip.log), before, chip.log, chip.page_size, chip.size);
        ProgramsKeepBus(before, chip.log, chip.page_size, chip.size);
        ChunkProgrammed(old(chip.memory), address, buffer, write_addr, write_len, more);
        done := done + more;
        write_addr := write_addr + write_len;
        if err != OK || write_addr == |buffer| {
          going := false;
        } else {
          ghost var at_end, ok := chip.log, false;
          err, ok := EndBus(chip, err);
          ReleaseIsEnd(old(chip.log), at_end, ok);
          UnflushedNext(old(chip.log), at_end, Release(ok));
          NoProgramsIn(at_end);
          FineOn(old(chip.log), at_end, chip.log, chip.page_size, chip.size);
          if err != OK {
            going, lost := false, true;
          } else {
            bus_acquired := false;
          }
        }
      }
    }
    ghost var written := chip.log;
    var ret := EndFlushCache(chip, err, bus_acquired, address, |buffer|);
    FlushedOrRefused(old(chip.log), written, chip.log, bus_acquired, address, |buffer|, ret);
    EndsAtLast(old(chip.log), written, chip.log);
    FineOn(old(chip.log), written, chip.log, chip.page_size, chip.size);
    if err == OK {
      err := ret;
    }
  }

  lemma NoEndsYet(log: seq<Event>)
    ensures EndsWork(log, log) && OnlyLastEnds(log, log) && EarlierEndsWork(log, log) && Unflushed(log, log)
  {}

  lemma AcquireIsNoEnd(before: seq<Event>, log: seq<Event>)
    requires before <= log
    ensures EndsWork(before, log + [Acquire]) <==> EndsWork(before, log)
  {
    EndsWorkOn(before, log, log + [Acquire]);
  }

  lemma ReleaseIsEnd(before: seq<Event>, log: seq<Event>, ok: bool)
    requires before <= log
    ensures EndsWork(before, log + [Release(ok)]) <==> EndsWork(before, log) && ok
  {
    var now := log + [Release(ok)];
    assert forall i :: 0 <= i < |log| ==> log[i] == now[i];
    assert now[|log|] == Release(ok);
  }

  lemma ProgramsAreNoEnds(before: seq<Event>, log: seq<Event>, now: seq<Event>, page_size: nat, size: nat)
    requires page_size > 0 && before <= log && OnlyPrograms(log, now, page_size, size)
    ensures before <= now && (EndsWork(before, now) <==> EndsWork(before, log))
  {
    hide OnePage;
    EndsWorkOn(before, log, now);
  }

  lemma NoProgramsYet(log: seq<Event>, page_size: nat, size: nat)
    requires page_size > 0
    ensures FinePrograms(log, log, page_size, size)
  {}

  lemma ProgramsKeepBus(before: seq<Event>, now: seq<Event>, page_size: nat, size: nat)
    requires page_size > 0 && OnlyPrograms(before, now, page_size, size)
    ensures Bus(before) == HELD ==> Bus(now) == HELD
  {
    hide OnePage;
    if Bus(before) == HELD {
      AccessesKeepBus(before, now);
    }
  }

  lemma ChunkProgrammed(m: Cells, a: nat, buffer: Cells, at: nat, length: nat, more: nat)
    requires at + length <= |buffer| && more <= length
    ensures Programmed(Programmed(m, a, buffer[..at]), a + at, buffer[at..at + length][..more])
         == Programmed(m, a, buffer[..at + more])
  {
    assert buffer[..at] + buffer[at..at + length][..more] == buffer[..at + more];
    ProgrammedAppend(m, a, buffer[..at], buffer[at..at + length][..more]);
  }

  // ---------------------------------------------------------------------------------------------
  // Reading
  // ---------------------------------------------------------------------------------------------

  lemma ReadsKeepBus(before: seq<Event>, now: seq<Event>)
    requires OnlyReads(before, now)
    ensures Bus(before) == HELD ==> Bus(now) == HELD
  {
    if Bus(before) == HELD {
      AccessesKeepBus(before, now);
    }
  }

  /** `esp_flash_read`, through a buffer of the given size where one is needed. */
  method Read(chip: Chip, address: nat, length: nat, temp_buffer: Option<nat>) returns (err: Err, buffer: Cells)
    requires chip.Valid() && address + length < UINT32
    requires temp_buffer.Some? ==> temp_buffer.value > 0
    modifies chip`log, chip`failures
    ensures address + length > chip.size ==> err == INVALID_ARG
    ensures err == OK ==> address + length <= chip.size && buffer == chip.memory[address..address + length]
    ensures address + length <= chip.size ==> chip.Succeeds(old(chip.failures), err)
    ensures Bus(old(chip.log)) == FREE ==> Bus(chip.log) == FREE
  {
    hide Bus, OnlyReads;
    buffer := [];
    if !RangeAccepted(address, length, chip.size) {
      return INVALID_ARG, [];
    }
    err := OK;
    if length == 0 {
      return;
    }
    var read_chunk_size := match temp_buffer case None => Min(MAX_READ_CHUNK, length) case Some(n) => n;
    var at: nat := 0;
    while err == OK && at < length
      invariant at <= length && (err == OK ==> buffer == chip.memory[address..address + at])
      invariant chip.Succeeds(old(chip.failures), err)
      invariant Bus(old(chip.log)) == FREE ==> Bus(chip.log) == FREE
      decreases length - at, err == OK
    {
      err := StartBus(chip);
      if err == OK {
        var length_to_read := Min(read_chunk_size, length - at);
        ghost var before := chip.log;
        var data;
        err, data := chip.ReadData(address + at, length_to_read);
        ReadsKeepBus(before, chip.log);
        ghost var ok;
        if err != OK {
          var end_err;
          end_err, ok := EndBus(chip, err);
        } else {
          err, ok := EndBus(chip, err);
          JoinSlices(chip.memory, address, at, length_to_read);
          buffer := buffer + data;
          at := at + length_to_read;
        }
      }
    }
  }

  // ---------------------------------------------------------------------------------------------
  // Erasing
  // ---------------------------------------------------------------------------------------------

  function ErasesOf(log: seq<Event>): seq<Event>
    decreases |log|
  {
    if log == [] then [] else
    var before := ErasesOf(log[..|log| - 1]);
    if log[|log| - 1].EraseSector? || log[|log| - 1].EraseBlock? then before + [log[|log| - 1]] else before
  }

  lemma ErasesAppend(log: seq<Event>, e: Event)
    ensures ErasesOf(log + [e]) == if e.EraseSector? || e.EraseBlock? then ErasesOf(log) + [e] else ErasesOf(log)
  {
    assert (log + [e])[..|log|] == log;
  }

  /** A whole aligned block fits in front of `end`. */
  predicate BlockFits(address: nat, end: nat, block: nat) {
    block > 0 && address + block <= end && Multiple(address, block)
  }

  function EraseAt(address: nat, end: nat, sector: nat, block: nat): Event {
    if BlockFits(address, end, block) then EraseBlock(address) else EraseSector(address)
  }

  function Extent(e: Event, sector: nat, block: nat): nat {
    if e.EraseBlock? then block else sector
  }

  /** Erases that follow each other from `address` to `now`, by blocks wherever a whole one is left before `end`. */
  predicate Tiles(es: seq<Event>, address: nat, now: nat, end: nat, sector: nat, block: nat)
    decreases |es|
  {
    if es == [] then address == now else
    && es[0] == EraseAt(address, end, sector, block)
    && Tiles(es[1..], address + Extent(es[0], sector, block), now, end, sector, block)
  }

  lemma {:induction false} TilesAppend(es: seq<Event>, address: nat, now: nat, end: nat, sector: nat, block: nat)
    requires Tiles(es, address, now, end, sector, block)
    ensures var e := EraseAt(now, end, sector, block);
            Tiles(es + [e], address, now + Extent(e, sector, block), end, sector, block)
    decreases |es|
  {
    hide EraseAt;
    var e := EraseAt(now, end, sector, block);
    if es == [] {
      assert [] + [e] == [e] && [e][1..] == [];
    } else {
      assert (es + [e])[1..] == es[1..] + [e];
      TilesAppend(es[1..], address + Extent(es[0], sector, block), now, end, sector, block);
    }
  }

  predicate Overlap(a_start: nat, a_len: nat, b_start: nat, b_len: nat) {
    a_start + a_len > b_start && b_start + b_len > a_start
  }

  /** A region of the chip that can be protected, and whether it is. */
  datatype Region = Region(offset: nat, size: nat, protected: bool)

  predicate Hit(region: Region, start: nat, len: nat) {
    region.protected && Overlap(start, len, region.offset, region.size)
  }

  ghost predicate AnyHit(regions: seq<Region>, start: nat, len: nat) {
    exists i :: 0 <= i < |regions| && Hit(regions[i], start, len)
  }

  /** The check for protected regions: what the chip reports is given as `regions`. */
  method CheckProtected(chip: Chip, start: nat, len: nat, regions: seq<Region>) returns (err: Err)
    requires chip.Valid()
    modifies chip`log, chip`failures
    ensures Bus(old(chip.log)) == FREE ==> Bus(chip.log) == FREE
    ensures EarlierEndsWork(old(chip.log), chip.log) && (err == OK ==> EndsWork(old(chip.log), chip.log))
    ensures Unflushed(old(chip.log), chip.log)
    ensures ErasesOf(chip.log) == ErasesOf(old(chip.log))
    ensures err == OK ==> !AnyHit(regions, start, len)
    ensures chip.failures >= old(chip.failures)
    ensures chip.failures == old(chip.failures) ==> err == if AnyHit(regions, start, len) then PROTECTED else OK
  {
    err := OK;
    if |regions| > 0 {
      ErasesAppend(chip.log, Acquire);
      ErasesAppend(chip.log, AcquireRefused);
      err := StartBus(chip);
      if err != OK {
        return;
      }
      ErasesAppend(chip.log, Query);
      BusAppend(chip.log, Query);
      chip.log := chip.log + [Query];
      err := chip.Command();
      var i := 0;
      while i < |regions| && err == OK
        invariant 0 <= i <= |regions|
        invariant err == OK ==> forall j :: 0 <= j < i ==> !Hit(regions[j], start, len)
        invariant chip.failures == old(chip.failures) ==>
                    err == OK || (err == PROTECTED && AnyHit(regions, start, len))
        decreases |regions| - i
      {
        if Hit(regions[i], start, len) {
          err := PROTECTED;
        }
        i := i + 1;
      }
      ghost var checked, ok := chip.log, false;
      err, ok := EndBus(chip, err);
      ErasesAppend(checked, Release(ok));
    }
  }

  /** One erase: of a whole block if possible, otherwise of a sector. */
  method EraseNext(chip: Chip, erase_addr: nat, len_remain: nat) returns (err: Err, length: nat)
    requires chip.Valid() && erase_addr + len_remain <= chip.size && len_remain > 0
    requires Multiple(len_remain, chip.sector_size) && Multiple(chip.block_erase_size, chip.sector_size)
    modifies chip
    ensures var e := EraseAt(erase_addr, erase_addr + len_remain, chip.sector_size, chip.block_erase_size);
            && chip.Valid() && length == Extent(e, chip.sector_size, chip.block_erase_size)
            && 0 < length <= len_remain && Multiple(len_remain - length, chip.sector_size)
            && ((chip.memory == Erased(old(chip.memory), erase_addr, length) && chip.log == old(chip.log) + [e]
                 && ErasesOf(chip.log) == ErasesOf(old(chip.log)) + [e])
                || (err != OK && chip.memory == old(chip.memory) && chip.log == old(chip.log)))
            && (Bus(old(chip.log)) == HELD ==> Bus(chip.log) == HELD) && chip.Succeeds(old(chip.failures), err)
  {
    hide Erased;
    ghost var e := EraseAt(erase_addr, erase_addr + len_remain, chip.sector_size, chip.block_erase_size);
    ErasesAppend(chip.log, e);
    BusAppend(chip.log, e);
    var block := chip.block_erase_size;
    length := if block > 0 && len_remain >= block && Multiple(erase_addr, block) then block else chip.sector_size;
    TakeOff(len_remain, chip.sector_size, length, chip.block_erase_size);
    hide Multiple;
    err := chip.Erase(erase_addr, length, e);
  }

  /** The loop over the range, and what follows it. */
  method EraseRange(chip: Chip, start: nat, len: nat) returns (err: Err, ghost es: seq<Event>, ghost now: nat)
    requires chip.Valid() && start + len <= chip.size && len > 0
    requires Multiple(len, chip.sector_size) && Multiple(chip.block_erase_size, chip.sector_size)
    modifies chip
    ensures chip.Valid() && start <= now && (err == OK ==> now == start + len)
    ensures Tiles(es, start, now, start + len, chip.sector_size, chip.block_erase_size)
    ensures ErasesOf(chip.log) == ErasesOf(old(chip.log)) + es
    ensures chip.memory == Erased(old(chip.memory), start, now - start)
    ensures old(chip.log) <= chip.log
    ensures Bus(old(chip.log)) == FREE ==>
              Bus(chip.log) == if EarlierEndsWork(old(chip.log), chip.log) then FREE else BusState(false, false)
    ensures err == OK ==> EndsWork(old(chip.log), chip.log)
    ensures Flushed(old(chip.log), chip.log, start, len) || (err != OK && Refused(old(chip.log), chip.log))
    ensures chip.Succeeds(old(chip.failures), err)
  {
    hide Erased, Multiple, EraseAt, Extent, Tiles, ErasesOf, Bus, BusStep, EndsWork, EarlierEndsWork, OnlyLastEnds;
    hide Flushed, FlushEnds, Unflushed, NoPrograms;
    NoEndsYet(chip.log);
    ghost var lost := false;
    es, now, err := [], start, OK;
    var block_erase_size, sector_size := chip.block_erase_size, chip.sector_size;
    NothingErased(chip.memory, start);
    NoTiles(start, start + len, sector_size, block_erase_size);
    assert ErasesOf(chip.log) + [] == ErasesOf(chip.log);
    var erase_addr, len_remain := start, len;
    var bus_acquired, going := false, true;
    while going
      invariant chip.Valid() && erase_addr + len_remain == start + len && (going ==> len_remain > 0)
      invariant Multiple(len_remain, sector_size)
      invariant start <= now <= erase_addr && (err == OK ==> now == erase_addr)
      invariant going ==> err == OK && !bus_acquired && !lost
      invariant !going && err == OK ==> len_remain == 0
      invariant chip.Succeeds(old(chip.failures), err)
      invariant lost ==> bus_acquired && err != OK
      invariant Unflushed(old(chip.log), chip.log) && (!going && !bus_acquired ==> AskedOnce(old(chip.log), chip.log))
      invariant Tiles(es, start, now, start + len, sector_size, block_erase_size)
      invariant ErasesOf(chip.log) == ErasesOf(old(chip.log)) + es
      invariant chip.memory == Erased(old(chip.memory), start, now - start)
      invariant old(chip.log) <= chip.log && (EndsWork(old(chip.log), chip.log) <==> !lost)
      invariant Bus(old(chip.log)) == FREE ==> Bus(chip.log) == if bus_acquired && !lost then HELD else FREE
      decreases len_remain, going
    {
      ghost var at_start := chip.log;
      RefusalIsNothing(old(chip.log), at_start, YieldRefused);
      RefusalIsNothing(old(chip.log), at_start, AcquireRefused);
      err := Yield(chip);
      if err != OK {
        RefusedNow(old(chip.log), at_start);
        return;
      }
      ErasesAppend(at_start, Acquire);
      AcquireIsNoEnd(old(chip.log), at_start);
      err := StartBus(chip);
      if err != OK {
        going := false;
      } else {
        bus_acquired := true;
        UnflushedNext(old(chip.log), at_start, Acquire);
        ghost var before, e := chip.log, EraseAt(erase_addr, start + len, sector_size, block_erase_size);
        var length;
        err, length := EraseNext(chip, erase_addr, len_remain);
        EraseIsNoEnd(old(chip.log), before, erase_addr, start + len, sector_size, block_erase_size);
        ErasedAppend(old(chip.memory), start, now - start, length);
        TilesAppend(es, start, now, start + len, sector_size, block_erase_size);
        if chip.log != before {
          es, now := es + [e], now + length;
        }
        erase_addr := erase_addr + length;
        len_remain := len_remain - length;
        if err != OK || len_remain == 0 {
          going := false;
        } else {
          ghost var at_end, ok := chip.log, false;
          err, ok := EndBus(chip, OK);
          ErasesAppend(at_end, Release(ok));
          ReleaseIsEnd(old(chip.log), at_end, ok);
          UnflushedNext(old(chip.log), at_end, Release(ok));
          if err != OK {
            going, lost := false, true;
          } else {
            bus_acquired := false;
          }
        }
      }
    }
    ghost var erased := chip.log;
    err := EndFlushCache(chip, err, bus_acquired, start, len);
    FlushedOrRefused(old(chip.log), erased, chip.log, bus_acquired, start, len, err);
    EndsAtLast(old(chip.log), erased, chip.log);
  }

  lemma EraseIsNoEnd(before: seq<Event>, log: seq<Event>, address: nat, end: nat, sector: nat, block: nat)
    requires before <= log
    ensures EndsWork(before, log + [EraseAt(address, end, sector, block)]) <==> EndsWork(before, log)
    ensures Unflushed(before, log) ==> Unflushed(before, log + [EraseAt(address, end, sector, block)])
  {
    EndsWorkOn(before, log, log + [EraseAt(address, end, sector, block)]);
  }

  /** What `esp_flash_erase_region` returns if neither driver nor operating system answers with an error. */
  ghost function EraseVerdict(chip: Chip, start: nat, len: nat, regions: seq<Region>): Err {
    if chip.sector_size == 0 || !Multiple(chip.block_erase_size, chip.sector_size) then NOT_INITIALISED
    else if start + len > chip.size then INVALID_ARG
    else if !Multiple(start, chip.sector_size) || !Multiple(len, chip.sector_size) then INVALID_ARG
    else if len > 0 && AnyHit(regions, start, len) then PROTECTED
    else OK
  }

  /** `esp_flash_erase_region`. If nothing fails, the range is erased from front to back; whatever fails, an initial
      part of it is, up to `now`. */
  method EraseRegion(chip: Chip, start: nat, len: nat, regions: seq<Region>)
    returns (err: Err, ghost es: seq<Event>, ghost now: nat)
    requires chip.Valid() && start + len < UINT32
    modifies chip
    ensures chip.Valid() && start <= now
    ensures var sector, block := chip.sector_size, chip.block_erase_size;
            && (sector == 0 || !Multiple(block, sector) ==> err == NOT_INITIALISED)
            && (err == OK ==> sector > 0 && start + len <= chip.size && now == start + len)
            && (err == OK ==> Multiple(start, sector) && Multiple(len, sector))
            && (err == OK ==> Tiles(es, start, start + len, start + len, sector, block))
            && Tiles(es, start, now, start + len, sector, block)
    ensures ErasesOf(chip.log) == ErasesOf(old(chip.log)) + es
    ensures chip.memory == Erased(old(chip.memory), start, now - start)
    ensures len > 0 && AnyHit(regions, start, len) ==> err != OK && es == []
    ensures chip.failures >= old(chip.failures)
    ensures chip.failures == old(chip.failures) ==> err == EraseVerdict(chip, start, len, regions)
    ensures old(chip.log) <= chip.log
    ensures Bus(old(chip.log)) == FREE ==>
              Bus(chip.log) == if EarlierEndsWork(old(chip.log), chip.log) then FREE else BusState(false, false)
    ensures err == OK ==> EndsWork(old(chip.log), chip.log)
    ensures err == OK && len > 0 ==> Flushed(old(chip.log), chip.log, start, len)
    ensures es != [] ==> Flushed(old(chip.log), chip.log, start, len) || (err != OK && Refused(old(chip.log), chip.log))
  {
    hide Erased, Multiple, AnyHit, RangeAccepted, EraseAt, Tiles, Bus, EndsWork, EarlierEndsWork, Unflushed;
    NoEndsYet(chip.log);
    es, now := [], start;
    var block_erase_size, sector_size := chip.block_erase_size, chip.sector_size;
    NothingErased(chip.memory, start);
    NoTiles(start, start + len, chip.sector_size, chip.block_erase_size);
    RangeCheckIsExact(start, len, chip.size);
    assert ErasesOf(chip.log) + [] == ErasesOf(chip.log);
    if sector_size == 0 || !Multiple(block_erase_size, sector_size) {
      return NOT_INITIALISED, [], start;
    }
    if !RangeAccepted(start, len, chip.size) {
      return INVALID_ARG, [], start;
    }
    if !Multiple(start, sector_size) || !Multiple(len, sector_size) {
      return INVALID_ARG, [], start;
    }
    if len == 0 {
      return OK, [], start;
    }
    err := CheckProtected(chip, start, len, regions);
    if err != OK {
      return;
    }
    ghost var before := chip.log;
    err, es, now := EraseRange(chip, start, len);
    assert ErasesOf(old(chip.log)) + es == ErasesOf(before) + es;
    EndsWorkOn(old(chip.log), before, chip.log);
    UnflushedOn(old(chip.log), before, chip.log);
  }

  lemma UnflushedOn(before: seq<Event>, between: seq<Event>, now: seq<Event>)
    requires Unflushed(before, between)
    ensures Unflushed(between, now) ==> Unflushed(before, now)
  {}

  lemma NoTiles(start: nat, end: nat, sector: nat, block: nat)
    ensures Tiles([], start, start, end, sector, block)
  {}

  lemma NothingErased(m: Cells, a: nat)
    ensures Erased(m, a, 0) == m
  {}

  lemma TakeOff(remain: nat, sector: nat, length: nat, block: nat)
    requires remain > 0 && Multiple(remain, sector) && Multiple(block, sector)
    requires length == sector || (length == block && block <= remain)
    ensures length <= remain && Multiple(remain - length, sector)
  {
    MultipleOfItself(sector);
    hide Multiple;
    assert Multiple(length, sector);
    MultiplesApart(0, remain, sector);
    MultipleMinus(remain, length, sector);
  }

  lemma MultipleOfItself(m: nat)
    requires m > 0
    ensures Multiple(m, m) && Multiple(0, m)
  {}

  lemma TimesIsMultiple(k: nat, m: nat)
    requires m > 0
    ensures Multiple(Start(k, m), m)
  {
    InSector(m, k, Start(k, m));
    Remainder(Start(k, m), m);
  }

  lemma Remainder(a: nat, m: nat)
    requires m > 0
    ensures a % m == a - Start(SectorOf(m, a), m)
  {}

  lemma MultipleMinus(a: nat, b: nat, m: nat)
    requires b <= a && m > 0 && Multiple(a, m) && Multiple(b, m)
    ensures Multiple(a - b, m)
  {
    DividesBack(a, m);
    DividesBack(b, m);
    var i, j := a / m, b / m;
    hide Multiple, Start;
    Ordered(i, j, m);
    StartSplit(j, i - j, m);
    TimesIsMultiple(i - j, m);
  }

  lemma MultiplePlus(a: nat, b: nat, m: nat)
    requires m > 0 && Multiple(a, m) && Multiple(b, m)
    ensures Multiple(a + b, m)
  {
    DividesBack(a, m);
    DividesBack(b, m);
    var i, j := a / m, b / m;
    hide Multiple, Start;
    StartSplit(i, j, m);
    TimesIsMultiple(i + j, m);
  }

  lemma MultiplesApart(a: nat, b: nat, m: nat)
    requires a < b && m > 0 && (a == 0 || Multiple(a, m)) && Multiple(b, m)
    ensures a + m <= b
  {
    MultipleOfItself(m);
    DividesBack(a, m);
    DividesBack(b, m);
    var i, j := a / m, b / m;
    hide Multiple, Start;
    Ordered(i, j, m);
    Ordered(j, i, m);
  }

  lemma MultipleOfMultiple(a: nat, b: nat, m: nat)
    requires m > 0 && b > 0 && Multiple(a, b) && Multiple(b, m)
    ensures Multiple(a, m)
  {
    DividesBack(a, b);
    DividesBack(b, m);
    var i, j := a / b, b / m;
    hide Multiple, Start;
    StartNested(i, j, m);
    TimesIsMultiple(Start(i, j), m);
  }

  // ---------------------------------------------------------------------------------------------
  // Which erases those are
  // ---------------------------------------------------------------------------------------------

  /** The erase covers this address. */
  predicate Erases(e: Event, k: nat, sector: nat, block: nat) {
    match e
    case EraseSector(a) => a <= k < a + sector
    case EraseBlock(a) => a <= k < a + block
    case _ => false
  }

  ghost predicate ErasedBySome(es: seq<Event>, k: nat, sector: nat, block: nat) {
    exists i :: 0 <= i < |es| && Erases(es[i], k, sector, block)
  }

  ghost predicate Aligned(address: nat, end: nat, sector: nat, block: nat) {
    sector > 0 && Multiple(address, sector) && Multiple(end, sector) && Multiple(block, sector)
  }

  lemma FirstTile(es: seq<Event>, address: nat, end: nat, sector: nat, block: nat)
    requires es != [] && Tiles(es, address, end, end, sector, block) && Aligned(address, end, sector, block)
    ensures var next := address + Extent(es[0], sector, block);
            next > address && Aligned(next, end, sector, block) && Tiles(es[1..], next, end, end, sector, block)
    ensures forall k: nat :: Erases(es[0], k, sector, block) <==> address <= k < address + Extent(es[0], sector, block)
  {
    MultipleOfItself(sector);
    hide Multiple;
    MultiplePlus(address, Extent(es[0], sector, block), sector);
  }

  /** Tiles lie at or behind where they start. */
  lemma {:induction false} TilesBehind(es: seq<Event>, address: nat, end: nat, sector: nat, block: nat, i: nat)
    requires Tiles(es, address, end, end, sector, block) && Aligned(address, end, sector, block) && i < |es|
    ensures forall k: nat :: Erases(es[i], k, sector, block) ==> address <= k < end
    ensures address <= end
    decreases |es|
  {
    hide Multiple, EraseAt, Erases;
    FirstTile(es, address, end, sector, block);
    var next := address + Extent(es[0], sector, block);
    TilesReach(es[1..], next, end, sector, block);
    if i > 0 {
      TilesBehind(es[1..], next, end, sector, block, i - 1);
      assert es[1..][i - 1] == es[i];
    }
  }

  lemma {:induction false} TilesReach(es: seq<Event>, address: nat, end: nat, sector: nat, block: nat)
    requires Tiles(es, address, end, end, sector, block) && Aligned(address, end, sector, block)
    ensures address <= end && (es == [] <==> address == end)
    decreases |es|
  {
    hide Multiple, EraseAt, Erases;
    if es != [] {
      FirstTile(es, address, end, sector, block);
      TilesReach(es[1..], address + Extent(es[0], sector, block), end, sector, block);
    }
  }

  /** No address is erased twice. */
  lemma {:induction false} ErasedOnce(es: seq<Event>, address: nat, end: nat, sector: nat, block: nat, i: nat, j: nat,
                                      k: nat)
    requires Tiles(es, address, end, end, sector, block) && Aligned(address, end, sector, block) && i < j < |es|
    ensures !(Erases(es[i], k, sector, block) && Erases(es[j], k, sector, block))
    decreases |es|
  {
    hide Multiple, EraseAt, Erases;
    FirstTile(es, address, end, sector, block);
    var next := address + Extent(es[0], sector, block);
    assert es[1..][j - 1] == es[j];
    if i == 0 {
      TilesBehind(es[1..], next, end, sector, block, j - 1);
    } else {
      assert es[1..][i - 1] == es[i];
      ErasedOnce(es[1..], next, end, sector, block, i - 1, j - 1, k);
    }
  }

  /** Every address of the range is erased. */
  lemma {:induction false} ErasedSomewhere(es: seq<Event>, address: nat, end: nat, sector: nat, block: nat, k: nat)
    returns (i: nat)
    requires Tiles(es, address, end, end, sector, block) && Aligned(address, end, sector, block) && address <= k < end
    ensures i < |es| && Erases(es[i], k, sector, block)
    decreases |es|
  {
    hide Multiple, EraseAt, Erases;
    FirstTile(es, address, end, sector, block);
    var next := address + Extent(es[0], sector, block);
    if k < next {
      i := 0;
    } else {
      i := ErasedSomewhere(es[1..], next, end, sector, block, k);
      i := i + 1;
    }
  }

  /** Every whole aligned block of the range is erased as a block. */
  lemma {:induction false} BlockIsErased(es: seq<Event>, address: nat, end: nat, sector: nat, block: nat, b: nat)
    requires Tiles(es, address, end, end, sector, block) && Aligned(address, end, sector, block)
    requires address <= b && BlockFits(b, end, block)
    ensures EraseBlock(b) in es
    decreases |es|
  {
    FirstTile(es, address, end, sector, block);
    var next := address + Extent(es[0], sector, block);
    if address < b {
      MultipleOfMultiple(b, block, sector);
      hide Multiple;
      if BlockFits(address, end, block) {
        MultiplesApart(address, b, block);
      } else {
        MultiplesApart(address, b, sector);
      }
      BlockIsErased(es[1..], next, end, sector, block, b);
    }
  }

  /** What the single erases look like. */
  lemma {:induction false} TilesAreAligned(es: seq<Event>, address: nat, end: nat, sector: nat, block: nat, i: nat)
    requires Tiles(es, address, end, end, sector, block) && Aligned(address, end, sector, block) && i < |es|
    ensures match es[i]
            case EraseBlock(b) => address <= b && BlockFits(b, end, block)
            case EraseSector(x) => address <= x && Multiple(x, sector)
            case _ => false
    decreases |es|
  {
    hide Multiple;
    FirstTile(es, address, end, sector, block);
    if i > 0 {
      TilesAreAligned(es[1..], address + Extent(es[0], sector, block), end, sector, block, i - 1);
      assert es[1..][i - 1] == es[i];
    }
  }

  /** A successful erase covers every address of the range once, uses a block erase for exactly the aligned blocks
      that lie wholly inside it, and a sector erase for nothing inside such a block. */
  lemma EraseIsExact(es: seq<Event>, start: nat, end: nat, sector: nat, block: nat)
    requires Tiles(es, start, end, end, sector, block) && Aligned(start, end, sector, block)
    ensures forall k: nat :: start <= k < end ==> ErasedBySome(es, k, sector, block)
    ensures forall i, j, k: nat :: 0 <= i < j < |es| ==>
              !(Erases(es[i], k, sector, block) && Erases(es[j], k, sector, block))
    ensures forall b: nat :: EraseBlock(b) in es <==> start <= b && BlockFits(b, end, block)
    ensures forall x: nat, b: nat :: EraseSector(x) in es && start <= b && BlockFits(b, end, block) ==>
              !(b <= x < b + block)
  {
    hide Multiple, Tiles, Erases, Aligned;
    forall k: nat | start <= k < end ensures ErasedBySome(es, k, sector, block) {
      var i := ErasedSomewhere(es, start, end, sector, block, k);
    }
    forall i, j, k: nat | 0 <= i < j < |es|
      ensures !(Erases(es[i], k, sector, block) && Erases(es[j], k, sector, block))
    {
      ErasedOnce(es, start, end, sector, block, i, j, k);
    }
    forall b: nat ensures EraseBlock(b) in es <==> start <= b && BlockFits(b, end, block) {
      if start <= b && BlockFits(b, end, block) {
        BlockIsErased(es, start, end, sector, block, b);
      }
      if EraseBlock(b) in es {
        var i :| 0 <= i < |es| && es[i] == EraseBlock(b);
        TilesAreAligned(es, start, end, sector, block, i);
      }
    }
    forall x: nat, b: nat | EraseSector(x) in es && start <= b && BlockFits(b, end, block)
      ensures !(b <= x < b + block)
    {
      SectorOutsideBlocks(es, start, end, sector, block, x, b);
    }
  }

  lemma SectorOutsideBlocks(es: seq<Event>, start: nat, end: nat, sector: nat, block: nat, x: nat, b: nat)
    requires Tiles(es, start, end, end, sector, block) && Aligned(start, end, sector, block)
    requires EraseSector(x) in es && EraseBlock(b) in es
    ensures !(b <= x < b + block)
  {
    hide Multiple, Tiles;
    var i :| 0 <= i < |es| && es[i] == EraseSector(x);
    var j :| 0 <= j < |es| && es[j] == EraseBlock(b);
    if i < j {
      ErasedOnce(es, start, end, sector, block, i, j, x);
    } else {
      ErasedOnce(es, start, end, sector, block, j, i, x);
    }
  }
}
