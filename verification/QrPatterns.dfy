/**
  The function patterns as they look: finders, timing lines and alignment pattern (ISO/IEC 18004,
  section 6.3), and that the data modules keep clear of them.
 */
module QrPatterns {
  import opened QrLayout
  import opened QrModules

  /** Border and core of the 7x7 finder with its corner at (0, 0); its separator is light. */
  ghost predicate OnFinder(y: int, x: int) {
    && 0 <= y < 7 && 0 <= x < 7
    && (y == 0 || y == 6 || x == 0 || x == 6 || (2 <= y < 5 && 2 <= x < 5))
  }

  /** The upper left corner, and its mirror images to the right and below. */
  lemma CornersAre(version: Version, y: int, x: int)
    requires 0 <= y < 8 && 0 <= x < 8
    ensures PatternDark(version, y, x) <==> OnFinder(y, x)
    ensures PatternDark(version, y, Size(version) - 1 - x) <==> OnFinder(y, x)
    ensures PatternDark(version, Size(version) - 1 - y, x) <==> OnFinder(y, x)
  {
  }

  /** Between the finders every second module of row 6 and of column 6 is dark. */
  lemma TimingIs(version: Version, k: int)
    requires 8 <= k < Size(version) - 8
    ensures PatternDark(version, 6, k) <==> k % 2 == 0
    ensures PatternDark(version, k, 6) <==> k % 2 == 0
  {
  }

  /** The alignment pattern of versions 2 to 6: border and centre of a 5x5 square, counted from its corner. */
  lemma AlignmentIs(version: Version, y: int, x: int)
    requires version > 1 && 0 <= y < 5 && 0 <= x < 5
    ensures PatternDark(version, Size(version) - 9 + y, Size(version) - 9 + x) <==>
              y == 0 || y == 4 || x == 0 || x == 4 || (y == 2 && x == 2)
  {
  }

  /** All dark modules of the patterns are reserved, so no data lies on them. */
  lemma PatternsAreReserved(version: Version, y: int, x: int)
    requires 0 <= y < Size(version) && 0 <= x < Size(version) && PatternDark(version, y, x)
    ensures IsReserved(version, (y, x))
  {
  }

  /** Reserved are the corners with the format areas, 9 by 9, 9 by 8 and 8 by 9, lines 6, and the alignment square. */
  lemma ReservedAre(version: Version, y: int, x: int)
    requires 0 <= y < Size(version) && 0 <= x < Size(version)
    ensures var (up, down, left, right) := (y < 9, Size(version) - y <= 8, x < 9, Size(version) - x <= 8);
            IsReserved(version, (y, x)) <==>
              || (up && left) || (up && right) || (down && left) || y == 6 || x == 6
              || (version > 1 && 5 <= Size(version) - y <= 9 && 5 <= Size(version) - x <= 9)
  {
  }
}
