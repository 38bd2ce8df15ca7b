/**
 * The finder-zone classifier of the coloured renderer. A QR symbol of n x n modules carries
 * three finder patterns, 7 x 7 modules each, in its top-left, top-right and bottom-left
 * corners (ISO/IEC 18004, section 6.3.3); the bottom-right corner has none.
 */
module QrFinder {

  /** Side of a finder pattern, in modules. */
  const FinderSide := 7

  /** isInFinder: (x, y) lies in one of the three corner blocks of an n x n grid. */
  predicate IsInFinder(x: int, y: int, n: int) {
    var inTopLeft := x >= 0 && x <= 6 && y >= 0 && y <= 6;
    var inTopRight := x >= n - 7 && x <= n - 1 && y >= 0 && y <= 6;
    var inBottomLeft := x >= 0 && x <= 6 && y >= n - 7 && y <= n - 1;
    inTopLeft || inTopRight || inBottomLeft
  }

  /** The square block of side FinderSide whose top-left module is (x0, y0). */
  predicate InBlock(x: int, y: int, x0: int, y0: int) {
    x0 <= x < x0 + FinderSide && y0 <= y < y0 + FinderSide
  }

  /** The classifier holds exactly on the three corner blocks [0,6]x[0,6], [n-7,n-1]x[0,6], [0,6]x[n-7,n-1]. */
  lemma FinderIsThreeBlocks(x: int, y: int, n: int)
    ensures IsInFinder(x, y, n) <==> InBlock(x, y, 0, 0) || InBlock(x, y, n - 7, 0) || InBlock(x, y, 0, n - 7)
  {
  }

  /** The bottom-right corner carries no finder pattern once the grid is wide enough for the blocks not to meet. */
  lemma BottomRightIsFree(x: int, y: int, n: int)
    requires n >= 14 && InBlock(x, y, n - 7, n - 7)
    ensures !IsInFinder(x, y, n)
  {
  }

  /** For n >= 14 the three blocks are pairwise disjoint. */
  lemma FinderBlocksDisjoint(x: int, y: int, n: int)
    requires n >= 14
    ensures !(InBlock(x, y, 0, 0) && InBlock(x, y, n - 7, 0))
    ensures !(InBlock(x, y, 0, 0) && InBlock(x, y, 0, n - 7))
    ensures !(InBlock(x, y, n - 7, 0) && InBlock(x, y, 0, n - 7))
  {
  }

  /** The zone is symmetric under exchanging x and y: transposition swaps top-right and bottom-left. */
  lemma FinderTransposeSymmetric(x: int, y: int, n: int)
    ensures IsInFinder(x, y, n) == IsInFinder(y, x, n)
  {
  }

  /** On a grid of at least 7 modules every finder module lies inside the grid. */
  lemma FinderWithinGrid(x: int, y: int, n: int)
    requires n >= 7 && IsInFinder(x, y, n)
    ensures 0 <= x < n && 0 <= y < n
  {
  }

  /** On a grid of at most 7 modules every module is a finder module. */
  lemma SmallGridAllFinder(x: int, y: int, n: int)
    requires n <= 7 && 0 <= x < n && 0 <= y < n
    ensures IsInFinder(x, y, n)
  {
  }

  /**
   * A module of the grid outside the finder zone exists only on grids of at least 8 modules,
   * so the renderer's x / (n - 1) never divides by zero.
   */
  lemma NonFinderGridIsWide(x: int, y: int, n: int)
    requires 0 <= x < n && 0 <= y < n && !IsInFinder(x, y, n)
    ensures n >= 8
  {
    if n <= 7 {
      SmallGridAllFinder(x, y, n);
    }
  }

  /** On a grid of at least 14 modules, column 0 and row 0 leave the finder zone exactly between the blocks. */
  lemma FinderFirstColumn(y: int, n: int)
    requires n >= 14 && 0 <= y < n
    ensures IsInFinder(0, y, n) <==> y <= 6 || y >= n - 7
  {
  }
}
