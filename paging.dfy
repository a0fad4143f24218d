/**
 * Page arithmetic of the dump handler: a file position is split into the
 * page-aligned address handed to the hypervisor and the offset inside that
 * page. `ALIGN_DOWN(x, a)` clears the low-order bits of `x` with the mask
 * `~(a - 1)`; for a power of two `a == 2^k` this is modelled bit by bit
 * (`ClearLowBits`) and proved to be rounding down to a multiple of `a`.
 */
module Paging {

  /** log2 of the page size; the dump buffer is one page (BUFFER_SIZE is PAGE_SIZE). */
  const PAGE_SHIFT: nat := 12
  const BUFFER_SIZE: nat := 4096

  function Pow2(k: nat): (r: nat)
    ensures r >= 1
  {
    if k == 0 then 1 else 2 * Pow2(k - 1)
  }

  /** `x >> k` for a non-negative `x`. */
  function ShiftRight(x: nat, k: nat): nat
  {
    if k == 0 then x else ShiftRight(x / 2, k - 1)
  }

  /** `x & ~(2^k - 1)` for a non-negative `x`: the value with its k low bits cleared. */
  function ClearLowBits(x: nat, k: nat): nat
  {
    if k == 0 then x else 2 * ClearLowBits(x / 2, k - 1)
  }

  /**
   * Clearing the k low bits leaves a multiple of 2^k (namely `(x >> k) << k`)
   * that lies less than 2^k below `x`.
   */
  lemma {:induction false} ClearLowBitsRoundsDown(x: nat, k: nat)
    ensures ClearLowBits(x, k) == Pow2(k) * ShiftRight(x, k)
    ensures ClearLowBits(x, k) <= x < ClearLowBits(x, k) + Pow2(k)
  {
    if k > 0 {
      ClearLowBitsRoundsDown(x / 2, k - 1);
      assert Pow2(k) * ShiftRight(x, k) == 2 * (Pow2(k - 1) * ShiftRight(x / 2, k - 1));
    }
  }

  lemma PageSizeIsPowerOfTwo()
    ensures Pow2(PAGE_SHIFT) == BUFFER_SIZE
  {
  }

  /** The split of a file position: the page fetched and the offset inside it. */
  datatype Window = Window(page: nat, offset: nat)

  /**
   * `page = ALIGN_DOWN(pos, BUFFER_SIZE)` and `offset = pos % BUFFER_SIZE`.
   * The page is a multiple of the page size at most one page below `pos`,
   * the offset lies inside the page, and the two parts add up to `pos`.
   */
  function Split(pos: nat): (w: Window)
    ensures w.page % BUFFER_SIZE == 0
    ensures 0 <= w.offset < BUFFER_SIZE
    ensures w.page + w.offset == pos
  {
    ClearLowBitsRoundsDown(pos, PAGE_SHIFT);
    PageSizeIsPowerOfTwo();
    Window(ClearLowBits(pos, PAGE_SHIFT), pos % BUFFER_SIZE)
  }

  /** The fetched page is the greatest multiple of the page size not above `pos`. */
  lemma SplitPageIsGreatest(pos: nat, m: nat)
    requires m % BUFFER_SIZE == 0 && m <= pos
    ensures m <= Split(pos).page
  {
  }

  /** Positions inside one page share the fetched page, and their offset is their distance from it. */
  lemma SplitSamePage(pos: nat, pos': nat)
    requires Split(pos).page <= pos' < Split(pos).page + BUFFER_SIZE
    ensures Split(pos').page == Split(pos).page
    ensures Split(pos').offset == pos' - Split(pos).page
  {
  }
}
