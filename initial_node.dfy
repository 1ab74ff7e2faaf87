/**
 * The footprint handling of the safety node: the strict footprint parser
 * (a parse error, fewer than three rows or any row that is not a pair makes
 * it fail), the conversion of a polygon message to points, and the copy of
 * a footprint into the node's unpadded and padded footprints.
 *
 * The conversion of one polygon vertex and the padding routine are not
 * shown; they are parameters.
 */
module SafetyFootprint {

  import opened Geometry
  import opened StringUtils

  /** The number of leading rows that are pairs. */
  function FirstNonPair(rows: seq<seq<real>>): (k: nat)
    ensures k <= |rows|
    ensures forall j :: 0 <= j < k ==> |rows[j]| == 2
    ensures k < |rows| ==> |rows[k]| != 2
  {
    if |rows| == 0 || |rows[0]| != 2 then 0 else 1 + FirstNonPair(rows[1..])
  }

  /** The leading pairs stop exactly at the first row that is not a pair. */
  lemma FirstNonPairAt(rows: seq<seq<real>>, i: nat)
    requires i <= |rows|
    requires forall j :: 0 <= j < i ==> |rows[j]| == 2
    requires i < |rows| ==> |rows[i]| != 2
    ensures FirstNonPair(rows) == i
  {
  }

  /** The parse results makeFootprintFromString accepts: no error, three or more pairs. */
  predicate FootprintAccepted(p: Parsed)
  {
    p.error == NoError && |p.rows| >= 3 && AllPairs(p.rows)
  }

  /**
   * The footprint makeFootprintFromString leaves behind: unchanged after a
   * parse error or a short list, otherwise extended by the points of the
   * leading pairs, which are all the rows when the string is accepted.
   */
  function FootprintAfter(p: Parsed, footprint: seq<Point>): seq<Point>
  {
    if p.error != NoError || |p.rows| < 3 then footprint
    else footprint + PairPoints(p.rows[..FirstNonPair(p.rows)])
  }

  /** An accepted string appends one point per row, in row order, and keeps the old points. */
  lemma AcceptedFootprint(p: Parsed, footprint: seq<Point>)
    requires FootprintAccepted(p)
    ensures |FootprintAfter(p, footprint)| == |footprint| + |p.rows|
    ensures FootprintAfter(p, footprint)[..|footprint|] == footprint
    ensures forall i :: 0 <= i < |p.rows| ==>
      FootprintAfter(p, footprint)[|footprint| + i] == Point(p.rows[i][0], p.rows[i][1], 0.0)
  {
    FirstNonPairAt(p.rows, |p.rows|);
    assert p.rows[..|p.rows|] == p.rows;
    PairPointsOfPairs(p.rows);
  }

  /** A rejected string never leaves a point for each of its rows. */
  lemma RejectedFootprint(p: Parsed, footprint: seq<Point>)
    requires !FootprintAccepted(p)
    ensures |FootprintAfter(p, footprint)| < |footprint| + |p.rows| || |p.rows| == 0
  {
    if p.error == NoError && |p.rows| >= 3 {
      var j :| 0 <= j < |p.rows| && |p.rows[j]| != 2;
      assert FirstNonPair(p.rows) <= j;
    }
  }

  /**
   * makeFootprintFromString, with `footprint` the reference parameter's old
   * value and `newFootprint` its value on return.
   */
  method MakeFootprintFromString(footprintString: string, toFloat: FloatReader, footprint: seq<Point>)
    returns (ok: bool, newFootprint: seq<Point>)
    ensures ok <==> FootprintAccepted(Parse(footprintString, toFloat))
    ensures newFootprint == FootprintAfter(Parse(footprintString, toFloat), footprint)
  {
    var vvf, error := ParseVVF(footprintString, toFloat);
    if Message(error) != "" {
      return false, footprint;
    }
    if |vvf| < 3 {
      return false, footprint;
    }
    ok, newFootprint := AppendLeadingPairs(vvf, footprint);
  }

  /**
   * The conversion loop of makeFootprintFromString: one point per row until
   * the first row that is not a pair, which makes it fail.
   */
  method AppendLeadingPairs(vvf: seq<seq<real>>, footprint: seq<Point>)
    returns (allPairs: bool, newFootprint: seq<Point>)
    ensures allPairs <==> AllPairs(vvf)
    ensures newFootprint == footprint + PairPoints(vvf[..FirstNonPair(vvf)])
  {
    newFootprint := footprint;
    var i := 0;
    while i < |vvf|
      invariant 0 <= i <= |vvf|
      invariant AllPairs(vvf[..i])
      invariant newFootprint == footprint + PairPoints(vvf[..i])
    {
      assert vvf[..i + 1][..i] == vvf[..i];
      if |vvf[i]| == 2 {
        newFootprint := newFootprint + [Point(vvf[i][0], vvf[i][1], 0.0)];
      } else {
        forall j | 0 <= j < i ensures |vvf[j]| == 2 {
          assert vvf[..i][j] == vvf[j];
        }
        FirstNonPairAt(vvf, i);
        return false, newFootprint;
      }
      i := i + 1;
    }
    assert vvf[..i] == vvf;
    FirstNonPairAt(vvf, i);
    return true, newFootprint;
  }

  /** toPointVector: one converted point per polygon vertex, in order. */
  method ToPointVector(polygon: Polygon, toPoint: Point32 -> Point) returns (pts: seq<Point>)
    ensures |pts| == |polygon|
    ensures forall i :: 0 <= i < |polygon| ==> pts[i] == toPoint(polygon[i])
  {
    pts := [];
    var i := 0;
    while i < |polygon|
      invariant 0 <= i <= |polygon|
      invariant |pts| == i
      invariant forall j :: 0 <= j < i ==> pts[j] == toPoint(polygon[j])
    {
      pts := pts + [toPoint(polygon[i])];
      i := i + 1;
    }
  }

  /** The padding routine: the padded footprint for a footprint and a padding. */
  type Padding = (seq<Point>, real) -> seq<Point>

  /** The footprint state of the safety node. */
  class SafetyZone {
    var unpaddedFootprint: seq<Point>
    var paddedFootprint: seq<Point>
    var footprintPadding: real

    constructor(padding: real)
      ensures unpaddedFootprint == [] && paddedFootprint == []
      ensures footprintPadding == padding
    {
      unpaddedFootprint := [];
      paddedFootprint := [];
      footprintPadding := padding;
    }

    /**
     * setRobotFootprint: the argument is kept unchanged as the unpadded
     * footprint, and the padded footprint is the padding of a copy of it.
     */
    method SetRobotFootprint(points: seq<Point>, pad: Padding)
      modifies this
      ensures unpaddedFootprint == points
      ensures paddedFootprint == pad(points, footprintPadding)
      ensures footprintPadding == old(footprintPadding)
    {
      unpaddedFootprint := points;
      paddedFootprint := points;
      paddedFootprint := pad(paddedFootprint, footprintPadding);
    }

    /** setRobotFootprintPolygon: the polygon's vertices become the footprint. */
    method SetRobotFootprintPolygon(polygon: Polygon, toPoint: Point32 -> Point, pad: Padding)
      modifies this
      ensures |unpaddedFootprint| == |polygon|
      ensures forall i :: 0 <= i < |polygon| ==> unpaddedFootprint[i] == toPoint(polygon[i])
      ensures paddedFootprint == pad(unpaddedFootprint, footprintPadding)
      ensures footprintPadding == old(footprintPadding)
    {
      var pts := ToPointVector(polygon, toPoint);
      SetRobotFootprint(pts, pad);
    }

    /**
     * The footprint set-up in the node's constructor when no radius is used:
     * the string is parsed into an empty vector, which is then set as the
     * footprint whether or not the parse succeeded.
     */
    method SetFootprintFromString(footprintString: string, toFloat: FloatReader, pad: Padding)
      returns (ok: bool)
      modifies this
      ensures ok <==> FootprintAccepted(Parse(footprintString, toFloat))
      ensures unpaddedFootprint == FootprintAfter(Parse(footprintString, toFloat), [])
      ensures paddedFootprint == pad(unpaddedFootprint, footprintPadding)
      ensures footprintPadding == old(footprintPadding)
    {
      var newFootprint: seq<Point> := [];
      ok, newFootprint := MakeFootprintFromString(footprintString, toFloat, newFootprint);
      SetRobotFootprint(newFootprint, pad);
    }
  }
}
