/**
 * The integer bookkeeping of the state-lattice node's heuristic: the wrap
 * of the heading-bin difference, the window test around the goal, the
 * mirror of the heading bin when the lateral offset is negative, the index
 * into the distance lookup table, the index into the wavefront table and
 * the final `neutral_cost * max(wavefront, motion)`.
 *
 * The rotation of the node's offset into the goal's frame and its rounding
 * are floating point and are not modelled: the rounded relative cell
 * (`rx`, `ry`) is an input. Heading bins are integers. Floats are reals.
 */
module LatticeHeuristic {

  import opened Wrappers

  /** sqrt(2) as the nearest double, the node's neutral cost. */
  const NeutralCost: real := 1.4142135623730951454746218587388284504413604736328125

  /** The average length of one wavefront move, (1 + sqrt(2)) / 2 rounded. */
  const WavefrontStep: real := 1.207

  /** The number of values of a 32-bit unsigned int. */
  const UintRange: int := 0x1_0000_0000

  function Abs(v: int): (a: nat)
    ensures a == v || a == -v
  {
    if v < 0 then -v else v
  }

  /** std::max(a, b): `b` when `a < b`, otherwise `a`. */
  function Max(a: real, b: real): (m: real)
    ensures m >= a && m >= b
    ensures m == a || m == b
  {
    if a < b then b else a
  }

  /** floor(size / 2.0) */
  function FloorHalf(size: nat): (h: nat)
    ensures 2 * h <= size < 2 * h + 2
  {
    size / 2
  }

  /** ceil(size / 2.0) */
  function CeilHalf(size: nat): (h: nat)
    ensures size <= 2 * h < size + 2
  {
    (size + 1) / 2
  }

  // ------------------------------------------------------------------
  // Heading bins
  // ------------------------------------------------------------------

  /**
   * The wrap of the heading-bin difference: subtract `n` when the
   * difference exceeds `n`, add `n` when it is negative.
   */
  function WrapHeadingBin(d: int, n: nat): (w: int)
    ensures w == d || w == d - n || w == d + n
    ensures -(n as int) < d < n ==> 0 <= w < n
  {
    if d > n then d - n else if d < 0 then d + n else d
  }

  /** A value in [0, d) is its own remainder. */
  lemma ModOfRemainder(r: int, d: int)
    requires 0 <= r < d
    ensures r % d == r
  {
    DivModUnique(r / d, r % d, 0, r, d);
  }

  /** Adding the modulus does not change the remainder. */
  lemma ModShift(v: int, d: int)
    requires d > 0
    ensures (v + d) % d == v % d
  {
    assert v == (v / d) * d + v % d;
    assert v + d == (v / d + 1) * d + v % d;
    DivModUnique((v + d) / d, (v + d) % d, v / d + 1, v % d, d);
  }

  /** The wrap keeps the residue of the difference modulo n. */
  lemma WrapKeepsResidue(d: int, n: nat)
    requires n > 0
    ensures WrapHeadingBin(d, n) % n == d % n
  {
    if d > n {
      ModShift(d - n, n);
    } else if d < 0 {
      ModShift(d, n);
    }
  }

  /** For headings that are bins, the wrapped difference is a bin. */
  lemma WrapOfBins(nodeTheta: int, goalTheta: int, n: nat)
    requires 0 <= nodeTheta < n && 0 <= goalTheta < n
    ensures 0 <= WrapHeadingBin(nodeTheta - goalTheta, n) < n
    ensures WrapHeadingBin(nodeTheta - goalTheta, n) == (nodeTheta - goalTheta) % n
  {
    var w := WrapHeadingBin(nodeTheta - goalTheta, n);
    WrapKeepsResidue(nodeTheta - goalTheta, n);
    ModOfRemainder(w, n);
  }

  /** The relative cell lies inside the window the lookup table covers. */
  predicate InWindow(rx: int, ry: int, size: nat)
  {
    Abs(rx) < FloorHalf(size) && Abs(ry) < FloorHalf(size)
  }

  /**
   * The heading bin as the code computes it, `n - rt` for a negative `ry`:
   * it agrees with the mirror modulo `n` except at heading 0, which it
   * sends to `n`, outside the bins.
   */
  function ThetaPosAsWritten(ry: int, rt: int, n: nat): (t: int)
    ensures rt != 0 || ry >= 0 ==> t == ThetaPos(ry, rt, n)
    ensures ry < 0 && rt == 0 ==> t == n
  {
    if ry < 0 then n - rt else rt
  }

  /**
   * The heading bin mirrored across the x axis when `ry` is negative,
   * modulo `n`: heading 0 mirrors to itself.
   */
  function ThetaPos(ry: int, rt: int, n: nat): (t: int)
    ensures 0 <= rt < n ==> 0 <= t < n
    ensures 0 <= rt < n && ry < 0 ==> t == (n - rt) % n
    ensures ry >= 0 ==> t == rt
  {
    if ry < 0 then (if rt == 0 then 0 else n - rt) else rt
  }

  // ------------------------------------------------------------------
  // The distance lookup table
  // ------------------------------------------------------------------

  /** A position in the table: x offset, mirrored y and heading bin. */
  datatype Entry = Entry(xPos: int, yPos: int, thetaPos: int)

  /** The entry a relative cell reads. */
  function EntryOf(rx: int, ry: int, rt: int, size: nat, n: nat): (e: Entry)
    ensures e.yPos >= 0
  {
    Entry(rx + FloorHalf(size), Abs(ry), ThetaPos(ry, rt, n))
  }

  /** The entry the code reads, with its heading bin as written. */
  function EntryOfAsWritten(rx: int, ry: int, rt: int, size: nat, n: nat): Entry
  {
    Entry(rx + FloorHalf(size), Abs(ry), ThetaPosAsWritten(ry, rt, n))
  }

  /** `x_pos * ceiling_size * n + y_pos * n + theta_pos` */
  function LookupIndex(e: Entry, size: nat, n: nat): int
  {
    e.xPos * CeilHalf(size) * n + e.yPos * n + e.thetaPos
  }

  /** An entry inside the table's three dimensions. */
  predicate ValidEntry(e: Entry, size: nat, n: nat)
  {
    0 <= e.xPos < size && 0 <= e.yPos < CeilHalf(size) && 0 <= e.thetaPos < n
  }

  /** A cell inside the window, with a heading bin, reads a valid entry. */
  lemma EntryOfValid(rx: int, ry: int, rt: int, size: nat, n: nat)
    requires InWindow(rx, ry, size) && 0 <= rt < n
    ensures ValidEntry(EntryOf(rx, ry, rt, size, n), size, n)
  {
  }

  /** q * d + r with 0 <= r < d stays below (q + 1) * d. */
  lemma BelowNextMultiple(q: int, r: int, d: int)
    requires 0 <= r < d
    ensures q * d + r < (q + 1) * d
  {
    assert (q + 1) * d == q * d + d;
  }

  /** A smaller quotient gives a smaller value, whatever the remainders. */
  lemma SmallerQuotient(q1: int, r1: int, q2: int, r2: int, d: int)
    requires q1 < q2 && 0 <= r1 < d && 0 <= r2
    ensures q1 * d + r1 < q2 * d + r2
  {
    BelowNextMultiple(q1, r1, d);
    MulMono(q1 + 1, q2, d);
  }

  /** Quotient and remainder are determined by the value. */
  lemma {:induction false} DivModUnique(q1: int, r1: int, q2: int, r2: int, d: int)
    requires 0 <= r1 < d && 0 <= r2 < d
    requires q1 * d + r1 == q2 * d + r2
    ensures q1 == q2 && r1 == r2
  {
    if q1 < q2 {
      SmallerQuotient(q1, r1, q2, r2, d);
    } else if q2 < q1 {
      SmallerQuotient(q2, r2, q1, r1, d);
    }
  }

  /** Multiplication by a non-negative factor keeps order. */
  lemma MulMono(a: int, b: int, d: int)
    requires a <= b && d >= 0
    ensures a * d <= b * d
  {
    assert b * d - a * d == (b - a) * d;
  }

  lemma MulAssoc(a: int, b: int, c: int)
    ensures a * b * c == a * (b * c)
  {
  }

  /** The part of the index below the x offset: y_pos * n + theta_pos. */
  lemma RowPartInRange(e: Entry, size: nat, n: nat)
    requires ValidEntry(e, size, n)
    ensures 0 <= e.yPos * n + e.thetaPos < CeilHalf(size) * n
  {
    BelowNextMultiple(e.yPos, e.thetaPos, n);
    MulMono(e.yPos + 1, CeilHalf(size), n);
    MulMono(0, e.yPos, n);
  }

  /** The index is x_pos * (ceiling_size * n) plus the row part. */
  lemma IndexSplit(e: Entry, size: nat, n: nat)
    ensures LookupIndex(e, size, n) == e.xPos * (CeilHalf(size) * n) + (e.yPos * n + e.thetaPos)
  {
    MulAssoc(e.xPos, CeilHalf(size), n);
  }

  /** The index of a valid entry is inside the table. */
  lemma LookupIndexInRange(e: Entry, size: nat, n: nat)
    requires ValidEntry(e, size, n)
    ensures 0 <= LookupIndex(e, size, n) < size * CeilHalf(size) * n
  {
    var block := CeilHalf(size) * n;
    var row := e.yPos * n + e.thetaPos;
    RowPartInRange(e, size, n);
    IndexSplit(e, size, n);
    BelowNextMultiple(e.xPos, row, block);
    MulMono(e.xPos + 1, size, block);
    MulMono(0, e.xPos, block);
    MulAssoc(size, CeilHalf(size), n);
  }

  /** Distinct valid entries have distinct indices. */
  lemma LookupIndexInjective(e1: Entry, e2: Entry, size: nat, n: nat)
    requires ValidEntry(e1, size, n) && ValidEntry(e2, size, n)
    requires LookupIndex(e1, size, n) == LookupIndex(e2, size, n)
    ensures e1 == e2
  {
    RowPartInRange(e1, size, n);
    RowPartInRange(e2, size, n);
    IndexSplit(e1, size, n);
    IndexSplit(e2, size, n);
    DivModUnique(e1.xPos, e1.yPos * n + e1.thetaPos, e2.xPos, e2.yPos * n + e2.thetaPos,
                 CeilHalf(size) * n);
    DivModUnique(e1.yPos, e1.thetaPos, e2.yPos, e2.thetaPos, n);
  }

  /**
   * Mirror symmetry: the cell (x, -y) with heading t reads the entry of
   * the cell (x, y) with the mirrored heading (n - t) mod n.
   */
  lemma MirrorSymmetry(rx: int, y: int, t: int, size: nat, n: nat)
    requires y > 0 && 0 <= t < n
    ensures EntryOf(rx, -y, t, size, n) == EntryOf(rx, y, (n - t) % n, size, n)
  {
    if t == 0 {
      assert (n - t) % n == 0;
    } else {
      assert (n - t) % n == n - t;
    }
  }

  /**
   * Two cells of the window read the same table index exactly when they
   * read the same entry, that is, when they agree up to the mirror.
   */
  lemma SameIndexIffSameEntry(rx1: int, ry1: int, rt1: int, rx2: int, ry2: int, rt2: int,
                              size: nat, n: nat)
    requires InWindow(rx1, ry1, size) && 0 <= rt1 < n
    requires InWindow(rx2, ry2, size) && 0 <= rt2 < n
    ensures LookupIndex(EntryOf(rx1, ry1, rt1, size, n), size, n) ==
            LookupIndex(EntryOf(rx2, ry2, rt2, size, n), size, n)
        <==> EntryOf(rx1, ry1, rt1, size, n) == EntryOf(rx2, ry2, rt2, size, n)
  {
    var e1 := EntryOf(rx1, ry1, rt1, size, n);
    var e2 := EntryOf(rx2, ry2, rt2, size, n);
    if LookupIndex(e1, size, n) == LookupIndex(e2, size, n) {
      LookupIndexInjective(e1, e2, size, n);
    }
  }

  /**
   * As written, heading 0 at a negative `ry` gives the bin `n`, which is no
   * bin: with 72 bins and a window of 25, the cell (0, -1, 0) reads the
   * entry of (0, 2, 0), neither of which is the other's mirror image.
   */
  lemma ThetaPosAsWrittenAliases()
    ensures ThetaPosAsWritten(-1, 0, 72) == 72
    ensures LookupIndex(EntryOfAsWritten(0, -1, 0, 25, 72), 25, 72) == 11376
    ensures LookupIndex(EntryOf(0, 2, 0, 25, 72), 25, 72) == 11376
    ensures EntryOfAsWritten(0, -1, 0, 25, 72) != EntryOf(0, 2, 0, 25, 72)
    ensures EntryOf(0, -1, 0, 25, 72) == Entry(12, 1, 0)
  {
  }

  /**
   * As written, with an even window of 24 the cell (11, -11, 0) reads one
   * past the end of a table of 24 * 12 * 72 entries.
   */
  lemma ThetaPosAsWrittenOutOfRange()
    ensures InWindow(11, -11, 24)
    ensures LookupIndex(EntryOfAsWritten(11, -11, 0, 24, 72), 24, 72) == 24 * CeilHalf(24) * 72
  {
  }

  // ------------------------------------------------------------------
  // The wavefront table
  // ------------------------------------------------------------------

  /**
   * `static_cast<unsigned>(y) * size_x + static_cast<unsigned>(x)` in 32-bit
   * unsigned arithmetic; the casts truncate the non-negative coordinates.
   */
  function WavefrontIndex(x: real, y: real, sizeX: nat): (i: nat)
    requires 0.0 <= x < UintRange as real && 0.0 <= y < UintRange as real
    ensures i < UintRange
  {
    (y.Floor * sizeX + x.Floor) % UintRange
  }

  /**
   * On a map of at most 2^32 cells the index does not wrap: it is the
   * row-major index of the cell and lies inside the map.
   */
  lemma WavefrontIndexOfCell(x: real, y: real, sizeX: nat, sizeY: nat)
    requires 0.0 <= x && x.Floor < sizeX && 0.0 <= y && y.Floor < sizeY
    requires sizeX * sizeY <= UintRange
    ensures x < UintRange as real && y < UintRange as real
    ensures WavefrontIndex(x, y, sizeX) == y.Floor * sizeX + x.Floor
    ensures WavefrontIndex(x, y, sizeX) < sizeX * sizeY
  {
    BelowNextMultiple(y.Floor, x.Floor, sizeX);
    MulMono(y.Floor + 1, sizeY, sizeX);
    MulMono(0, y.Floor, sizeX);
    MulMono(1, sizeY, sizeX);
    MulMono(1, sizeX, sizeY);
    ModOfRemainder(y.Floor * sizeX + x.Floor, UintRange);
  }

  /** Two cells of such a map share a wavefront index only if they are the same cell. */
  lemma WavefrontIndexInjective(x1: real, y1: real, x2: real, y2: real, sizeX: nat, sizeY: nat)
    requires 0.0 <= x1 && x1.Floor < sizeX && 0.0 <= y1 && y1.Floor < sizeY
    requires 0.0 <= x2 && x2.Floor < sizeX && 0.0 <= y2 && y2.Floor < sizeY
    requires sizeX * sizeY <= UintRange
    requires WavefrontIndex(x1, y1, sizeX) == WavefrontIndex(x2, y2, sizeX)
    ensures x1.Floor == x2.Floor && y1.Floor == y2.Floor
  {
    WavefrontIndexOfCell(x1, y1, sizeX, sizeY);
    WavefrontIndexOfCell(x2, y2, sizeX, sizeY);
    DivModUnique(y1.Floor, x1.Floor, y2.Floor, x2.Floor, sizeX);
  }

  /**
   * `static_cast<float>(wavefront_value - 2) * 1.207` with the subtraction
   * in 32-bit unsigned arithmetic.
   */
  function WavefrontTerm(value: nat): (w: real)
    requires value < UintRange
    ensures w >= 0.0
    ensures w == 0.0 <==> value == 2
    ensures value >= 2 ==> w == (value - 2) as real * WavefrontStep
    ensures value < 2 ==> w >= (UintRange - 2) as real * WavefrontStep
  {
    ((value - 2) % UintRange) as real * WavefrontStep
  }

  // ------------------------------------------------------------------
  // The heuristic
  // ------------------------------------------------------------------

  /** The motion term: the table entry inside the window, 0 outside it. */
  function MotionTerm(rx: int, ry: int, rt: int, size: nat, n: nat, distLookup: seq<real>): (m: real)
    requires 0 <= rt < n
    requires |distLookup| >= size * CeilHalf(size) * n
    ensures !InWindow(rx, ry, size) ==> m == 0.0
    ensures InWindow(rx, ry, size) ==> m in distLookup
  {
    if InWindow(rx, ry, size) then
      var e := EntryOf(rx, ry, rt, size, n);
      LookupIndexInRange(e, size, n);
      distLookup[LookupIndex(e, size, n)]
    else 0.0
  }

  /**
   * The motion term as the code reads it, at the heading bin as written;
   * None when that index falls outside the table.
   */
  function MotionTermAsWritten(rx: int, ry: int, rt: int, size: nat, n: nat, distLookup: seq<real>)
    : (m: Option<real>)
    requires 0 <= rt < n
    requires |distLookup| >= size * CeilHalf(size) * n
    ensures !InWindow(rx, ry, size) ==> m == Some(0.0)
    ensures rt != 0 || ry >= 0 ==> m == Some(MotionTerm(rx, ry, rt, size, n, distLookup))
  {
    if InWindow(rx, ry, size) then
      EntryOfValid(rx, ry, rt, size, n);
      LookupIndexInRange(EntryOf(rx, ry, rt, size, n), size, n);
      var i := LookupIndex(EntryOfAsWritten(rx, ry, rt, size, n), size, n);
      if 0 <= i < |distLookup| then Some(distLookup[i]) else None
    else Some(0.0)
  }

  /**
   * As written, the cell (0, -1) with heading 0 gets the table value of the
   * cell (0, 2) with heading 0, not that of its mirror (0, 1).
   */
  lemma MotionTermAsWrittenAliases(distLookup: seq<real>)
    requires |distLookup| >= 25 * CeilHalf(25) * 72
    ensures MotionTermAsWritten(0, -1, 0, 25, 72, distLookup) == Some(MotionTerm(0, 2, 0, 25, 72, distLookup))
    ensures MotionTerm(0, -1, 0, 25, 72, distLookup) == MotionTerm(0, 1, 0, 25, 72, distLookup)
  {
    ThetaPosAsWrittenAliases();
  }

  /** The motion term does not change under the mirror. */
  lemma MotionTermMirror(rx: int, y: int, t: int, size: nat, n: nat, distLookup: seq<real>)
    requires y > 0 && 0 <= t < n
    requires |distLookup| >= size * CeilHalf(size) * n
    ensures 0 <= (n - t) % n < n
    ensures MotionTerm(rx, -y, t, size, n, distLookup) == MotionTerm(rx, y, (n - t) % n, size, n, distLookup)
  {
    MirrorSymmetry(rx, y, t, size, n);
  }

  /** What getHeuristicCost reads about the node, once rotated and rounded. */
  datatype Query = Query(
    rx: int, ry: int,               // rounded offset from the goal, in the goal's frame
    nodeTheta: int, goalTheta: int, // heading bins
    nodeX: real, nodeY: real)       // the node's map coordinates

  /** The constants and tables the heuristic reads. */
  datatype Tables = Tables(
    numAngleBins: nat, sizeLookup: nat, sizeX: nat,
    distLookup: seq<real>, wavefrontLookup: seq<nat>)

  /** The callers' obligations: bins, a full distance table, a readable wavefront cell. */
  predicate Readable(q: Query, tb: Tables)
  {
    0 <= q.nodeTheta < tb.numAngleBins && 0 <= q.goalTheta < tb.numAngleBins &&
    |tb.distLookup| >= tb.sizeLookup * CeilHalf(tb.sizeLookup) * tb.numAngleBins &&
    0.0 <= q.nodeX < UintRange as real && 0.0 <= q.nodeY < UintRange as real &&
    WavefrontIndex(q.nodeX, q.nodeY, tb.sizeX) < |tb.wavefrontLookup| &&
    tb.wavefrontLookup[WavefrontIndex(q.nodeX, q.nodeY, tb.sizeX)] < UintRange
  }

  function HeadingBin(q: Query, tb: Tables): (rt: int)
    requires Readable(q, tb)
    ensures 0 <= rt < tb.numAngleBins
  {
    WrapOfBins(q.nodeTheta, q.goalTheta, tb.numAngleBins);
    WrapHeadingBin(q.nodeTheta - q.goalTheta, tb.numAngleBins)
  }

  function Motion(q: Query, tb: Tables): real
    requires Readable(q, tb)
  {
    MotionTerm(q.rx, q.ry, HeadingBin(q, tb), tb.sizeLookup, tb.numAngleBins, tb.distLookup)
  }

  function Wavefront(q: Query, tb: Tables): real
    requires Readable(q, tb)
  {
    WavefrontTerm(tb.wavefrontLookup[WavefrontIndex(q.nodeX, q.nodeY, tb.sizeX)])
  }

  /** getHeuristicCost: neutral_cost * max(wavefront term, motion term). */
  function HeuristicCost(q: Query, tb: Tables): (h: real)
    requires Readable(q, tb)
    ensures h >= NeutralCost * Wavefront(q, tb)
    ensures h >= NeutralCost * Motion(q, tb)
    ensures h == NeutralCost * Wavefront(q, tb) || h == NeutralCost * Motion(q, tb)
  {
    NeutralCost * Max(Wavefront(q, tb), Motion(q, tb))
  }

  /** Outside the window only the wavefront term counts. */
  lemma HeuristicOutsideWindow(q: Query, tb: Tables)
    requires Readable(q, tb) && !InWindow(q.rx, q.ry, tb.sizeLookup)
    ensures HeuristicCost(q, tb) == NeutralCost * Wavefront(q, tb)
    ensures HeuristicCost(q, tb) >= 0.0
  {
  }

  /** On a cell whose wavefront value is 2, outside the window, the estimate is 0. */
  lemma HeuristicAtWavefrontStart(q: Query, tb: Tables)
    requires Readable(q, tb) && !InWindow(q.rx, q.ry, tb.sizeLookup)
    requires tb.wavefrontLookup[WavefrontIndex(q.nodeX, q.nodeY, tb.sizeX)] == 2
    ensures HeuristicCost(q, tb) == 0.0
  {
  }

  /**
   * Mirroring the node across the goal's x axis, with its heading bin,
   * keeps the motion term; the estimate then differs only by the wavefront
   * term of the mirrored node's own cell.
   */
  lemma MirrorKeepsMotion(q: Query, tb: Tables, m: Query)
    requires Readable(q, tb) && Readable(m, tb)
    requires q.ry > 0 && m.rx == q.rx && m.ry == -q.ry
    requires (HeadingBin(q, tb) + HeadingBin(m, tb)) % tb.numAngleBins == 0
    ensures Motion(m, tb) == Motion(q, tb)
    ensures HeuristicCost(m, tb) == NeutralCost * Max(Wavefront(m, tb), Motion(q, tb))
  {
    var n := tb.numAngleBins;
    var t := HeadingBin(m, tb);
    var u := HeadingBin(q, tb);
    MirroredBin(t, u, n);
    MotionTermMirror(q.rx, q.ry, t, tb.sizeLookup, n, tb.distLookup);
  }

  /** Two bins that add up to a multiple of n are each other's mirror. */
  lemma MirroredBin(t: int, u: int, n: nat)
    requires 0 <= t < n && 0 <= u < n && (t + u) % n == 0
    ensures u == (n - t) % n
  {
    if t == 0 {
      ModOfRemainder(u, n);
      ModShift(0, n);
    } else {
      ModOfRemainder(n - t, n);
      if t + u < n {
        ModOfRemainder(t + u, n);
      } else {
        ModShift(t + u - n, n);
        ModOfRemainder(t + u - n, n);
      }
    }
  }
}
