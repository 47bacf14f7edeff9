/** `spi_flash_mmap_pages` of flash_mmap.c: a list of flash pages is mapped run by run. */
module MmapPages {
  import opened Bytes

  const MMU_PAGE_SIZE: int := 0x1_0000

  /** Consecutive pages. */
  datatype Run = Run(start: int, count: nat)

  function Pages(r: Run): (s: seq<int>)
    ensures |s| == r.count
  {
    seq(r.count, i => r.start + i)
  }

  /** The pages that a list of runs stands for, in order. */
  function Expand(runs: seq<Run>): seq<int> {
    if runs == [] then [] else Pages(runs[0]) + Expand(runs[1..])
  }

  /** No two neighbours could be one run. */
  predicate Maximal(runs: seq<Run>) {
    && (forall i :: 0 <= i < |runs| ==> runs[i].count > 0)
    && (forall i :: 0 < i < |runs| ==> runs[i].start != runs[i - 1].start + runs[i - 1].count)
  }

  function Extended(runs: seq<Run>, page: int): (r: seq<Run>)
    requires runs != []
  {
    var last := runs[|runs| - 1];
    if page == last.start + last.count then runs[|runs| - 1 := Run(last.start, last.count + 1)]
    else runs + [Run(page, 1)]
  }

  /** What merging neighbours page by page gives. */
  function Merged(pages: seq<int>): (r: seq<Run>)
    requires pages != []
    ensures r != []
    ensures r[|r| - 1].start + r[|r| - 1].count == pages[|pages| - 1] + 1
    decreases |pages|
  {
    if |pages| == 1 then [Run(pages[0], 1)] else Extended(Merged(pages[..|pages| - 1]), pages[|pages| - 1])
  }

  // ---------------------------------------------------------------------------------------------
  // The two passes
  // ---------------------------------------------------------------------------------------------

  /** `s_find_non_contiguous_block_nums`. */
  method FindNonContiguousBlockNums(pages: seq<int>) returns (nums: nat)
    requires pages != []
    ensures nums == |Merged(pages)|
  {
    nums := 1;
    var last_end := pages[0] + 1;
    var i: nat := 1;
    while i < |pages|
      invariant 1 <= i <= |pages| && last_end == pages[i - 1] + 1 && nums == |Merged(pages[..i])|
    {
      assert pages[..i + 1][..i] == pages[..i];
      if pages[i] != last_end {
        nums := nums + 1;
      }
      last_end := pages[i] + 1;
      i := i + 1;
    }
    assert pages[..|pages|] == pages;
  }

  /** The table holds these runs. */
  predicate Holds(blocks: array2<int>, runs: seq<Run>)
    reads blocks
  {
    |runs| <= blocks.Length0 && blocks.Length1 == 2 &&
    forall i :: 0 <= i < |runs| ==> blocks[i, 0] == runs[i].start && blocks[i, 1] == runs[i].count
  }

  /** In bytes. */
  predicate HoldsBytes(blocks: array2<int>, runs: seq<Run>)
    reads blocks
  {
    |runs| <= blocks.Length0 && blocks.Length1 == 2 &&
    forall i :: 0 <= i < |runs| ==>
                  blocks[i, 0] == runs[i].start * MMU_PAGE_SIZE && blocks[i, 1] == runs[i].count * MMU_PAGE_SIZE
  }

  /** One more page: a longer last run or a new one, and never more runs than in the end. */
  lemma {:induction false} MergedStep(pages: seq<int>, i: nat)
    requires 0 < i <= |pages|
    ensures |Merged(pages[..i])| <= |Merged(pages)|
    ensures i < |pages| ==>
              && Merged(pages[..i + 1]) == Extended(Merged(pages[..i]), pages[i])
              && |Merged(pages[..i + 1])| <= |Merged(pages)|
    decreases |pages| - i
  {
    if i == |pages| {
      assert pages[..i] == pages;
    } else {
      assert pages[..i + 1][..i] == pages[..i];
      MergedStep(pages, i + 1);
    }
  }

  /** One round: the page opens a row, or lengthens the one it stands in. */
  method MergePage(out_blocks: array2<int>, row: nat, page: int, opens: bool, ghost runs: seq<Run>)
    requires runs != [] && Holds(out_blocks, runs) && row < out_blocks.Length0
    requires opens == (page != runs[|runs| - 1].start + runs[|runs| - 1].count)
    requires row == if opens then |runs| else |runs| - 1
    modifies out_blocks
    ensures Holds(out_blocks, Extended(runs, page))
  {
    if opens {
      out_blocks[row, 0] := page;
      out_blocks[row, 1] := 1;
    } else {
      out_blocks[row, 1] := out_blocks[row, 1] + 1;
    }
  }

  /** `s_merge_contiguous_pages`: a table with as many rows as the first pass has counted is filled without overrun. */
  method MergeContiguousPages(pages: seq<int>, block_nums: nat, out_blocks: array2<int>)
    requires pages != [] && block_nums == |Merged(pages)| == out_blocks.Length0 && out_blocks.Length1 == 2
    modifies out_blocks
    ensures Holds(out_blocks, Merged(pages))
  {
    var last_end := pages[0] + 1;
    var new_array_id: nat := 0;
    out_blocks[new_array_id, 0] := pages[0];
    out_blocks[new_array_id, 1] := 1;
    ghost var runs := Merged(pages[..1]);
    hide Merged;
    var i: nat := 1;
    while i < |pages|
      invariant 1 <= i <= |pages| && runs == Merged(pages[..i])
      invariant last_end == runs[|runs| - 1].start + runs[|runs| - 1].count
      invariant new_array_id == |runs| - 1 && Holds(out_blocks, runs)
    {
      MergedStep(pages, i);
      if pages[i] != last_end {
        new_array_id := new_array_id + 1;
        assert new_array_id < block_nums;
      }
      MergePage(out_blocks, new_array_id, pages[i], pages[i] != last_end, runs);
      last_end := pages[i] + 1;
      runs := Extended(runs, pages[i]);
      i := i + 1;
    }
    assert pages[..|pages|] == pages;
  }

  /** `s_pages_to_bytes`. */
  method PagesToBytes(blocks: array2<int>, block_nums: nat, ghost runs: seq<Run>)
    requires block_nums == |runs| == blocks.Length0 && Holds(blocks, runs)
    modifies blocks
    ensures HoldsBytes(blocks, runs)
  {
    var i: nat := 0;
    while i < block_nums
      invariant i <= block_nums
      invariant forall j :: 0 <= j < i ==>
                blocks[j, 0] == runs[j].start * MMU_PAGE_SIZE && blocks[j, 1] == runs[j].count * MMU_PAGE_SIZE
      invariant forall j :: i <= j < block_nums ==> blocks[j, 0] == runs[j].start && blocks[j, 1] == runs[j].count
    {
      blocks[i, 0] := blocks[i, 0] * MMU_PAGE_SIZE;
      blocks[i, 1] := blocks[i, 1] * MMU_PAGE_SIZE;
      i := i + 1;
    }
  }

  // ---------------------------------------------------------------------------------------------
  // What the runs are
  // ---------------------------------------------------------------------------------------------

  lemma {:induction false} ExpandAppend(a: seq<Run>, b: seq<Run>)
    ensures Expand(a + b) == Expand(a) + Expand(b)
    decreases |a|
  {
    if a == [] {
      assert a + b == b;
    } else {
      assert (a + b)[1..] == a[1..] + b;
      ExpandAppend(a[1..], b);
    }
  }

  lemma ExpandSingle(r: Run)
    ensures Expand([r]) == Pages(r)
  {
    assert [r][1..] == [];
    assert Expand([r]) == Pages(r) + Expand([]);
  }

  lemma ExtendedIsMaximal(runs: seq<Run>, page: int)
    requires runs != [] && Maximal(runs)
    ensures Maximal(Extended(runs, page))
  {}

  lemma ExpandExtended(runs: seq<Run>, page: int)
    requires runs != [] && Maximal(runs)
    ensures Expand(Extended(runs, page)) == Expand(runs) + [page] && Maximal(Extended(runs, page))
  {
    ExtendedIsMaximal(runs, page);
    hide Maximal, Expand, Pages;
    var n := |runs| - 1;
    if page == runs[n].start + runs[n].count {
      ExpandLonger(runs[..n], runs[n]);
      assert runs == runs[..n] + [runs[n]];
      assert Extended(runs, page) == runs[..n] + [Run(runs[n].start, runs[n].count + 1)];
    } else {
      ExpandAppend(runs, [Run(page, 1)]);
      ExpandSingle(Run(page, 1));
      PagesLonger(Run(page, 0));
    }
  }

  lemma ExpandLonger(front: seq<Run>, last: Run)
    ensures Expand(front + [Run(last.start, last.count + 1)]) == Expand(front + [last]) + [last.start + last.count]
  {
    hide Expand, Pages;
    ExpandAppend(front, [last]);
    ExpandSingle(last);
    ExpandAppend(front, [Run(last.start, last.count + 1)]);
    ExpandSingle(Run(last.start, last.count + 1));
    PagesLonger(last);
    Regroup(Expand(front), Pages(last), [last.start + last.count]);
  }

  lemma Regroup(a: seq<int>, b: seq<int>, c: seq<int>)
    ensures a + (b + c) == (a + b) + c
  {}

  lemma PagesLonger(r: Run)
    ensures Pages(Run(r.start, r.count + 1)) == Pages(r) + [r.start + r.count]
    ensures r.count == 0 ==> Pages(Run(r.start, r.count + 1)) == [r.start + r.count]
  {}

  /** The runs stand for exactly the given pages, and are as long as possible. */
  lemma {:induction false} MergedIsExact(pages: seq<int>)
    requires pages != []
    ensures Expand(Merged(pages)) == pages && Maximal(Merged(pages))
    decreases |pages|
  {
    if |pages| == 1 {
      ExpandSingle(Run(pages[0], 1));
      assert Pages(Run(pages[0], 1)) == pages;
    } else {
      var front := pages[..|pages| - 1];
      MergedIsExact(front);
      ExpandExtended(Merged(front), pages[|pages| - 1]);
      assert front + [pages[|pages| - 1]] == pages;
    }
  }

  /** How far the first run reaches is decided by the pages. */
  lemma FirstRun(runs: seq<Run>, pages: seq<int>)
    requires runs != [] && Maximal(runs) && Expand(runs) == pages
    ensures 0 < runs[0].count <= |pages| && pages[0] == runs[0].start && pages[runs[0].count..] == Expand(runs[1..])
    ensures forall i :: 0 <= i < runs[0].count ==> pages[i] == pages[0] + i
    ensures runs[0].count < |pages| ==> pages[runs[0].count] != pages[0] + runs[0].count
  {
    var n := runs[0].count;
    assert pages == Pages(runs[0]) + Expand(runs[1..]);
    if |runs| > 1 {
      assert pages[n] == Expand(runs[1..])[0] == Pages(runs[1])[0] == runs[1].start;
    }
  }

  /** No other runs do. */
  lemma {:induction false} MergedIsUnique(a: seq<Run>, b: seq<Run>)
    requires Maximal(a) && Maximal(b) && Expand(a) == Expand(b)
    ensures a == b
    decreases |a|
  {
    if a == [] || b == [] {
      if a != [] {
        FirstRun(a, Expand(a));
      }
      if b != [] {
        FirstRun(b, Expand(b));
      }
    } else {
      FirstRun(a, Expand(a));
      FirstRun(b, Expand(b));
      assert a[0].count == b[0].count;
      MergedIsUnique(a[1..], b[1..]);
      assert a == [a[0]] + a[1..] && b == [b[0]] + b[1..];
    }
  }

  // ---------------------------------------------------------------------------------------------
  // Mapping
  // ---------------------------------------------------------------------------------------------

  datatype Event = Map(paddr: int, size: int, ptr: nat) | Unmap(ptr: nat)

  /** The memory mapping unit: a request succeeds or fails as it likes. */
  class Mmu {
    ghost var log: seq<Event>

    constructor ()
      ensures log == []
    {
      log := [];
    }

    method Map(paddr: int, size: int) returns (ok: bool, ptr: nat)
      modifies this
      ensures log == if ok then old(log) + [Event.Map(paddr, size, ptr)] else old(log)
    {
      ok := *;
      ptr := *;
      if ok {
        log := log + [Event.Map(paddr, size, ptr)];
      }
    }

    method Unmap(ptr: nat)
      modifies this
      ensures log == old(log) + [Event.Unmap(ptr)]
    {
      log := log + [Event.Unmap(ptr)];
    }
  }

  /** One request per run, in bytes, and where it was mapped. */
  function MapsOf(runs: seq<Run>, ptrs: seq<nat>): seq<Event>
    requires |ptrs| <= |runs|
  {
    seq(|ptrs|, i requires 0 <= i < |ptrs| =>
          Event.Map(runs[i].start * MMU_PAGE_SIZE, runs[i].count * MMU_PAGE_SIZE, ptrs[i]))
  }

  function UnmapsOf(ptrs: seq<nat>): seq<Event> {
    seq(|ptrs|, i requires 0 <= i < |ptrs| => Event.Unmap(ptrs[i]))
  }

  /** `spi_flash_mmap_pages`, where `heap` says whether there is memory for its lists: either all
      runs are mapped, or those that were are unmapped again and nothing else is. */
  method SpiFlashMmapPages(mmu: Mmu, pages: seq<int>, heap: bool)
    returns (handle: Option<seq<nat>>, ghost ptrs: seq<nat>)
    requires pages != []
    modifies mmu
    ensures |ptrs| <= |Merged(pages)|
    ensures handle.Some? ==>
              && heap && handle.value == ptrs && |ptrs| == |Merged(pages)|
              && mmu.log == old(mmu.log) + MapsOf(Merged(pages), ptrs)
    ensures handle.None? ==>
              && (heap ==> |ptrs| < |Merged(pages)|)
              && mmu.log == old(mmu.log) + MapsOf(Merged(pages), ptrs) + UnmapsOf(ptrs)
  {
    var block_num := FindNonContiguousBlockNums(pages);
    var paddr_blocks := new int[block_num, 2];
    MergeContiguousPages(pages, block_num, paddr_blocks);
    PagesToBytes(paddr_blocks, block_num, Merged(pages));
    hide Merged;
    ghost var runs := Merged(pages);
    ptrs := [];
    if !heap {
      assert mmu.log == old(mmu.log) + MapsOf(runs, []) + UnmapsOf([]);
      return None, [];
    }
    var vaddr_list := new nat[block_num];
    var successful_cnt: nat := 0;
    while successful_cnt < block_num
      invariant successful_cnt == |ptrs| <= block_num && vaddr_list[..successful_cnt] == ptrs
      invariant mmu.log == old(mmu.log) + MapsOf(runs, ptrs)
      invariant HoldsBytes(paddr_blocks, runs)
    {
      var ok, ptr := mmu.Map(paddr_blocks[successful_cnt, 0], paddr_blocks[successful_cnt, 1]);
      if !ok {
        UnmapAll(mmu, vaddr_list, successful_cnt);
        return None, ptrs;
      }
      vaddr_list[successful_cnt] := ptr;
      assert MapsOf(runs, ptrs + [ptr])
          == MapsOf(runs, ptrs)
             + [Event.Map(runs[successful_cnt].start * MMU_PAGE_SIZE, runs[successful_cnt].count * MMU_PAGE_SIZE, ptr)];
      ptrs := ptrs + [ptr];
      successful_cnt := successful_cnt + 1;
    }
    handle := Some(vaddr_list[..]);
  }

  method UnmapAll(mmu: Mmu, vaddr_list: array<nat>, successful_cnt: nat)
    requires successful_cnt <= vaddr_list.Length
    modifies mmu
    ensures mmu.log == old(mmu.log) + UnmapsOf(vaddr_list[..successful_cnt])
  {
    var i: nat := 0;
    while i < successful_cnt
      invariant i <= successful_cnt && mmu.log == old(mmu.log) + UnmapsOf(vaddr_list[..i])
    {
      mmu.Unmap(vaddr_list[i]);
      assert UnmapsOf(vaddr_list[..i + 1]) == UnmapsOf(vaddr_list[..i]) + [Event.Unmap(vaddr_list[i])];
      i := i + 1;
    }
  }
}
