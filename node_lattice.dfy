/**
 * The state-lattice search node of the Smac planner and the motion table
 * all nodes share: the table's cache-by-filepath initialisation, the
 * node's lifecycle fields, its validity check against a collision checker,
 * and the expansion of projected motions into neighbour nodes.
 *
 * The collision checker, the lookup from an index to a node of the graph
 * (the neighbour getter) and the index function are not shown; they are
 * parameters. Floats are reals; a NaN cell cost is None.
 */
module SmacPlanner {

  import opened Wrappers

  /** The largest finite single-precision float, the "not yet reached" cost. */
  const FloatMax: real := 340282346638528859811704183484516925440.0

  /** A continuous pose in map cells, the heading in bins. */
  datatype Coordinates = Coordinates(x: real, y: real, theta: real)

  /** One projected motion from a node. */
  datatype MotionPose = MotionPose(x: real, y: real, theta: real)

  datatype MotionModel = Unknown | TwoD | Dubin | ReedsShepp | StateLattice

  /** The part of the planner's search settings the lattice node reads. */
  datatype SearchInfo = SearchInfo(latticeFilepath: string)

  /** Number of heading bins and turning radius of a lattice file. */
  datatype LatticeMetadata = LatticeMetadata(numBins: nat, turningRadius: real)

  /**
   * The grid collision checker: whether the footprint collides at a pose,
   * and the cost it reports for the pose it last checked.
   */
  datatype CollisionChecker = CollisionChecker(
    inCollision: (real, real, real, bool) -> bool,
    cost: (real, real, real) -> real)

  /** A heading in bins as an angle: `theta * bin_size`. */
  function Angle(theta: real, binSize: real): real
  {
    theta * binSize
  }

  /** The fields of a lattice node, as one value. */
  datatype NodeView = NodeView(
    parent: NodeLattice?, pose: Coordinates, cellCost: Option<real>, accumulatedCost: real,
    index: nat, wasVisited: bool, isQueued: bool, motionPrimitiveIndex: nat)

  /** The message of the exception for a motion model other than STATE_LATTICE. */
  const InvalidMotionModelMessage: string :=
    "Invalid motion model for Lattice node. Please select STATE_LATTICE and provide a valid lattice file."

  /** The fields of the motion table, as one value. */
  datatype TableState = TableState(
    sizeX: nat, currentLatticeFilepath: string, numAngleQuantization: nat,
    binSize: real, minTurningRadius: real, trigValues: seq<(real, real)>)

  /**
   * The table after initMotionModel: `size_x` is always overwritten, and
   * the lattice file is recorded unless it is already the current one.
   */
  function Initialized(s: TableState, sizeX: nat, info: SearchInfo): (r: TableState)
    ensures r.sizeX == sizeX
    ensures r.currentLatticeFilepath == info.latticeFilepath
    ensures r.numAngleQuantization == s.numAngleQuantization && r.binSize == s.binSize
    ensures r.minTurningRadius == s.minTurningRadius && r.trigValues == s.trigValues
  {
    if s.currentLatticeFilepath == info.latticeFilepath then s.(sizeX := sizeX)
    else s.(sizeX := sizeX, currentLatticeFilepath := info.latticeFilepath)
  }

  /** On a cache hit only `size_x` changes. */
  lemma InitializedOnCacheHit(s: TableState, sizeX: nat, info: SearchInfo)
    requires s.currentLatticeFilepath == info.latticeFilepath
    ensures Initialized(s, sizeX, info) == s.(sizeX := sizeX)
  {
  }

  /** A second initialisation with the same arguments changes nothing more. */
  lemma InitializedIdempotent(s: TableState, sizeX: nat, info: SearchInfo)
    ensures Initialized(Initialized(s, sizeX, info), sizeX, info) == Initialized(s, sizeX, info)
  {
  }

  /** The motion table shared by all lattice nodes. */
  class LatticeMotionTable {
    var sizeX: nat
    var currentLatticeFilepath: string
    var numAngleQuantization: nat
    var binSize: real
    var minTurningRadius: real
    var trigValues: seq<(real, real)>

    constructor()
      ensures currentLatticeFilepath == ""
    {
      currentLatticeFilepath := "";
    }

    function State(): TableState
      reads this
    {
      TableState(sizeX, currentLatticeFilepath, numAngleQuantization, binSize, minTurningRadius, trigValues)
    }

    /** LatticeMotionTable::initMotionModel */
    method InitMotionModel(sizeXIn: nat, info: SearchInfo)
      modifies this
      ensures State() == Initialized(old(State()), sizeXIn, info)
    {
      sizeX := sizeXIn;
      if currentLatticeFilepath == info.latticeFilepath {
        return;
      }
      currentLatticeFilepath := info.latticeFilepath;
    }

    /** getProjections, a stub: no motion primitives yet. */
    function GetProjections(node: NodeLattice): (ps: seq<MotionPose>)
      ensures |ps| == 0
    {
      []
    }

    /** getLatticeMetadata, a stub: zero bins and a zero turning radius. */
    function GetLatticeMetadata(latticeFilepath: string): (m: LatticeMetadata)
      ensures m.numBins == 0 && m.turningRadius == 0.0
    {
      LatticeMetadata(0, 0.0)
    }
  }

  /** A search node of the state lattice. */
  class NodeLattice {
    var parent: NodeLattice?
    var pose: Coordinates
    var cellCost: Option<real>
    var accumulatedCost: real
    var index: nat
    var wasVisited: bool
    var isQueued: bool
    var motionPrimitiveIndex: nat

    /** All fields of the node, as one value. */
    function View(): NodeView
      reads this
    {
      NodeView(parent, pose, cellCost, accumulatedCost, index, wasVisited, isQueued, motionPrimitiveIndex)
    }

    /** Every field the constructor sets, except the index, at its initial value. */
    predicate Pristine()
      reads this
    {
      parent == null && pose == Coordinates(0.0, 0.0, 0.0) && cellCost == None &&
      accumulatedCost == FloatMax && !wasVisited && !isQueued
    }

    constructor(idx: nat)
      ensures Pristine() && index == idx
    {
      parent := null;
      pose := Coordinates(0.0, 0.0, 0.0);
      cellCost := None;
      accumulatedCost := FloatMax;
      index := idx;
      wasVisited := false;
      isQueued := false;
    }

    /** reset: back to the constructor's values, whatever the prior state; the index stays. */
    method Reset()
      modifies this
      ensures Pristine()
      ensures index == old(index) && motionPrimitiveIndex == old(motionPrimitiveIndex)
    {
      parent := null;
      cellCost := None;
      accumulatedCost := FloatMax;
      wasVisited := false;
      isQueued := false;
      pose := pose.(x := 0.0);
      pose := pose.(y := 0.0);
      pose := pose.(theta := 0.0);
    }

    /**
     * isNodeValid: false when the checker reports a collision at the
     * node's pose, the heading turned into an angle by the table's bin size;
     * otherwise the checker's cost is recorded and the result is true.
     */
    method IsNodeValid(traverseUnknown: bool, checker: CollisionChecker, binSize: real)
      returns (valid: bool)
      modifies this`cellCost
      ensures valid == !checker.inCollision(pose.x, pose.y, Angle(pose.theta, binSize), traverseUnknown)
      ensures valid ==> cellCost == Some(checker.cost(pose.x, pose.y, Angle(pose.theta, binSize)))
      ensures !valid ==> cellCost == old(cellCost)
    {
      if checker.inCollision(pose.x, pose.y, Angle(pose.theta, binSize), traverseUnknown) {
        return false;
      }
      var cost := checker.cost(pose.x, pose.y, Angle(pose.theta, binSize));
      cellCost := Some(cost);
      return true;
    }

    /** getTraversalCost, a stub: every motion is free. */
    function GetTraversalCost(child: NodeLattice): (c: real)
      ensures c == 0.0
    {
      0.0
    }

    /** NodeLattice::initMotionModel: only the state lattice is accepted. */
    static method InitMotionModel(table: LatticeMotionTable, motionModel: MotionModel,
                                  sizeX: nat, info: SearchInfo)
      returns (exception: Option<string>)
      modifies table
      ensures motionModel != StateLattice ==>
        exception == Some(InvalidMotionModelMessage) && table.State() == old(table.State())
      ensures motionModel == StateLattice ==>
        exception == None && table.State() == Initialized(old(table.State()), sizeX, info)
    {
      if motionModel != StateLattice {
        return Some(InvalidMotionModelMessage);
      }
      table.InitMotionModel(sizeX, info);
      return None;
    }

    /** getNeighbors: expands the projections the table gives for `node`. */
    static method GetNeighbors(table: LatticeMotionTable, node: NodeLattice,
                               graph: map<nat, NodeLattice>, getIndex: (nat, nat, nat) -> nat,
                               checker: CollisionChecker, traverseUnknown: bool,
                               neighbors: seq<NodeLattice>)
      returns (result: seq<NodeLattice>)
      modifies graph.Values
      ensures result == neighbors
      ensures forall n | n in graph.Values :: n.View() == old(n.View())
    {
      var projections := table.GetProjections(node);
      result := ExpandProjections(projections, graph, getIndex, checker, traverseUnknown,
                                  table.binSize, neighbors);
    }
  }

  // ------------------------------------------------------------------
  // Neighbour expansion
  // ------------------------------------------------------------------

  /** What the expansion depends on besides the projections. */
  datatype Env = Env(
    graph: map<nat, NodeLattice>,     // the neighbour getter: index to node
    visited: set<NodeLattice>,        // the nodes marked visited
    getIndex: (nat, nat, nat) -> nat,
    checker: CollisionChecker,
    traverseUnknown: bool,
    binSize: real)

  /** The nodes of the graph marked visited. */
  function Visited(graph: map<nat, NodeLattice>): set<NodeLattice>
    reads graph.Values
  {
    set n | n in graph.Values && n.wasVisited
  }

  /**
   * `static_cast<unsigned int>` of a coordinate: truncation toward zero,
   * defined for values above -1.
   */
  function ToUnsigned(v: real): (u: nat)
    requires v > -1.0
    ensures v >= 0.0 ==> u as real <= v < u as real + 1.0
    ensures v < 1.0 ==> u == 0
  {
    if v < 0.0 then 0 else v.Floor
  }

  /** The unsigned casts of the coordinates are defined. */
  predicate Castable(p: MotionPose)
  {
    p.x > -1.0 && p.y > -1.0 && p.theta > -1.0
  }

  predicate AllCastable(ps: seq<MotionPose>)
  {
    forall i :: 0 <= i < |ps| ==> Castable(ps[i])
  }

  /** The node a projection reaches: the getter found it and it was not visited. */
  function Target(p: MotionPose, e: Env): Option<NodeLattice>
    requires Castable(p)
  {
    var k := e.getIndex(ToUnsigned(p.x), ToUnsigned(p.y), ToUnsigned(p.theta));
    if k in e.graph && e.graph[k] !in e.visited then Some(e.graph[k]) else None
  }

  /** The node is valid at the projected pose. */
  predicate Clear(p: MotionPose, e: Env)
  {
    !e.checker.inCollision(p.x, p.y, Angle(p.theta, e.binSize), e.traverseUnknown)
  }

  predicate Accepted(p: MotionPose, e: Env)
    requires Castable(p)
  {
    Target(p, e).Some? && Clear(p, e)
  }

  function PoseOf(p: MotionPose): Coordinates
  {
    Coordinates(p.x, p.y, p.theta)
  }

  /** The nodes appended for the projections, in projection order. */
  function Expansion(ps: seq<MotionPose>, e: Env): (r: seq<NodeLattice>)
    requires AllCastable(ps)
    ensures |r| <= |ps|
    ensures forall j :: 0 <= j < |r| ==> r[j] in e.graph.Values && r[j] !in e.visited
  {
    if |ps| == 0 then []
    else
      var last := ps[|ps| - 1];
      Expansion(ps[..|ps| - 1], e) + (if Accepted(last, e) then [Target(last, e).value] else [])
  }

  /** The positions of the accepted projections, in increasing order. */
  function Origins(ps: seq<MotionPose>, e: Env): (o: seq<nat>)
    requires AllCastable(ps)
    ensures |o| == |Expansion(ps, e)|
  {
    if |ps| == 0 then []
    else
      var init := ps[..|ps| - 1];
      assert forall i :: 0 <= i < |init| ==> init[i] == ps[i];
      Origins(init, e) + (if Accepted(ps[|ps| - 1], e) then [|ps| - 1] else [])
  }

  /**
   * Each appended node comes from an accepted projection, the origins are
   * positions of the projection list, and they increase strictly.
   */
  lemma {:induction false} OriginsMeaning(ps: seq<MotionPose>, e: Env)
    requires AllCastable(ps)
    ensures forall j :: 0 <= j < |Origins(ps, e)| ==>
      Origins(ps, e)[j] < |ps| && Accepted(ps[Origins(ps, e)[j]], e) &&
      Expansion(ps, e)[j] == Target(ps[Origins(ps, e)[j]], e).value
    ensures forall j, k :: 0 <= j < k < |Origins(ps, e)| ==> Origins(ps, e)[j] < Origins(ps, e)[k]
    decreases |ps|
  {
    if |ps| > 0 {
      var init := ps[..|ps| - 1];
      assert forall i :: 0 <= i < |init| ==> init[i] == ps[i];
      OriginsMeaning(init, e);
    }
  }

  /** Conversely, every accepted projection is appended, at its place among the origins. */
  lemma {:induction false} AcceptedIsAppended(ps: seq<MotionPose>, e: Env, i: nat)
    requires AllCastable(ps) && i < |ps| && Accepted(ps[i], e)
    ensures exists j :: 0 <= j < |Origins(ps, e)| && Origins(ps, e)[j] == i
    decreases |ps|
  {
    var init := ps[..|ps| - 1];
    assert forall k :: 0 <= k < |init| ==> init[k] == ps[k];
    if i == |ps| - 1 {
      assert Origins(ps, e)[|Origins(init, e)|] == i;
    } else {
      AcceptedIsAppended(init, e, i);
      var j :| 0 <= j < |Origins(init, e)| && Origins(init, e)[j] == i;
      assert Origins(ps, e)[j] == i;
    }
  }

  /** The last projection that reaches `n`. */
  function LastHit(ps: seq<MotionPose>, n: NodeLattice, e: Env): (h: Option<nat>)
    requires AllCastable(ps)
    ensures h.Some? ==> h.value < |ps| && Target(ps[h.value], e) == Some(n)
    ensures h.Some? ==> forall j :: h.value < j < |ps| ==> Target(ps[j], e) != Some(n)
    ensures h.None? ==> forall j :: 0 <= j < |ps| ==> Target(ps[j], e) != Some(n)
  {
    if |ps| == 0 then None
    else if Target(ps[|ps| - 1], e) == Some(n) then Some(|ps| - 1)
    else
      var init := ps[..|ps| - 1];
      assert forall i :: 0 <= i < |init| ==> init[i] == ps[i];
      LastHit(init, n, e)
  }

  /** The last projection that reaches `n` and finds it valid. */
  function LastAccepted(ps: seq<MotionPose>, n: NodeLattice, e: Env): (h: Option<nat>)
    requires AllCastable(ps)
    ensures h.Some? ==> h.value < |ps| && Target(ps[h.value], e) == Some(n) && Clear(ps[h.value], e)
    ensures h.Some? ==> forall j :: h.value < j < |ps| ==> !(Target(ps[j], e) == Some(n) && Clear(ps[j], e))
    ensures h.None? ==> forall j :: 0 <= j < |ps| ==> !(Target(ps[j], e) == Some(n) && Clear(ps[j], e))
  {
    if |ps| == 0 then None
    else if Target(ps[|ps| - 1], e) == Some(n) && Clear(ps[|ps| - 1], e) then Some(|ps| - 1)
    else
      var init := ps[..|ps| - 1];
      assert forall i :: 0 <= i < |init| ==> init[i] == ps[i];
      LastAccepted(init, n, e)
  }

  /** The pose of `n` after the expansion: that of the last projection reaching it. */
  function PoseAfter(ps: seq<MotionPose>, n: NodeLattice, e: Env, before: Coordinates): Coordinates
    requires AllCastable(ps)
  {
    match LastHit(ps, n, e)
    case Some(i) => PoseOf(ps[i])
    case None => before
  }

  /** The motion primitive index of `n` after the expansion. */
  function PrimitiveAfter(ps: seq<MotionPose>, n: NodeLattice, e: Env, before: nat): nat
    requires AllCastable(ps)
  {
    match LastAccepted(ps, n, e)
    case Some(i) => i
    case None => before
  }

  /** The cell cost of `n` after the expansion. */
  function CostAfter(ps: seq<MotionPose>, n: NodeLattice, e: Env, before: Option<real>): Option<real>
    requires AllCastable(ps)
  {
    match LastAccepted(ps, n, e)
    case Some(i) => Some(e.checker.cost(ps[i].x, ps[i].y, Angle(ps[i].theta, e.binSize)))
    case None => before
  }

  /**
   * A node reached by projection `i`: it takes the projected pose, and when
   * that pose is valid the checker's cost and `i` as its motion primitive.
   */
  function Visit(v: NodeView, p: MotionPose, i: nat, e: Env): NodeView
  {
    if Clear(p, e) then
      v.(pose := PoseOf(p), cellCost := Some(e.checker.cost(p.x, p.y, Angle(p.theta, e.binSize))),
         motionPrimitiveIndex := i)
    else v.(pose := PoseOf(p))
  }

  /** The fields of `n` after the projections `ps`, from their values `v0` before. */
  function ViewAfter(ps: seq<MotionPose>, n: NodeLattice, e: Env, v0: NodeView): NodeView
    requires AllCastable(ps)
  {
    if |ps| == 0 then v0
    else
      var v := ViewAfter(ps[..|ps| - 1], n, e, v0);
      if Target(ps[|ps| - 1], e) == Some(n) then Visit(v, ps[|ps| - 1], |ps| - 1, e) else v
  }

  /** After the expansion, a node has the pose of the last projection reaching it. */
  lemma {:induction false} ViewAfterPose(ps: seq<MotionPose>, n: NodeLattice, e: Env, v0: NodeView)
    requires AllCastable(ps)
    ensures ViewAfter(ps, n, e, v0).pose == PoseAfter(ps, n, e, v0.pose)
    decreases |ps|
  {
    if |ps| > 0 {
      var init := ps[..|ps| - 1];
      assert forall i :: 0 <= i < |init| ==> init[i] == ps[i];
      ViewAfterPose(init, n, e, v0);
    }
  }

  /**
   * After the expansion, a node has as its motion primitive the position of
   * the last projection that reached it at a valid pose.
   */
  lemma {:induction false} ViewAfterPrimitive(ps: seq<MotionPose>, n: NodeLattice, e: Env, v0: NodeView)
    requires AllCastable(ps)
    ensures ViewAfter(ps, n, e, v0).motionPrimitiveIndex == PrimitiveAfter(ps, n, e, v0.motionPrimitiveIndex)
    decreases |ps|
  {
    if |ps| > 0 {
      var init := ps[..|ps| - 1];
      assert forall i :: 0 <= i < |init| ==> init[i] == ps[i];
      ViewAfterPrimitive(init, n, e, v0);
    }
  }

  /** After the expansion, a node has the checker's cost at the last valid pose. */
  lemma {:induction false} ViewAfterCost(ps: seq<MotionPose>, n: NodeLattice, e: Env, v0: NodeView)
    requires AllCastable(ps)
    ensures ViewAfter(ps, n, e, v0).cellCost == CostAfter(ps, n, e, v0.cellCost)
    decreases |ps|
  {
    if |ps| > 0 {
      var init := ps[..|ps| - 1];
      assert forall i :: 0 <= i < |init| ==> init[i] == ps[i];
      ViewAfterCost(init, n, e, v0);
    }
  }

  /** The expansion changes no field of a node but its pose, cost and motion primitive. */
  lemma {:induction false} ViewAfterKeeps(ps: seq<MotionPose>, n: NodeLattice, e: Env, v0: NodeView)
    requires AllCastable(ps)
    ensures var v := ViewAfter(ps, n, e, v0);
      v == v0.(pose := v.pose, cellCost := v.cellCost, motionPrimitiveIndex := v.motionPrimitiveIndex)
    decreases |ps|
  {
    if |ps| > 0 {
      var init := ps[..|ps| - 1];
      assert forall i :: 0 <= i < |init| ==> init[i] == ps[i];
      ViewAfterKeeps(init, n, e, v0);
    }
  }

  predicate Distinct(ns: seq<NodeLattice>)
  {
    forall j, k :: 0 <= j < k < |ns| ==> ns[j] != ns[k]
  }

  /**
   * When no node is appended twice, each appended node ends with the
   * position of its projection as its motion primitive index.
   */
  lemma {:induction false} AppendedPrimitive(ps: seq<MotionPose>, e: Env, j: nat, before: nat)
    requires AllCastable(ps)
    requires Distinct(Expansion(ps, e))
    requires j < |Expansion(ps, e)|
    ensures PrimitiveAfter(ps, Expansion(ps, e)[j], e, before) == Origins(ps, e)[j]
    decreases |ps|
  {
    var init := ps[..|ps| - 1];
    var last := ps[|ps| - 1];
    assert forall i :: 0 <= i < |init| ==> init[i] == ps[i];
    var prefix := Expansion(init, e);
    var n := Expansion(ps, e)[j];
    if j < |prefix| {
      assert n == prefix[j];
      assert Distinct(prefix) by {
        forall a, b | 0 <= a < b < |prefix| ensures prefix[a] != prefix[b] {
          assert prefix[a] == Expansion(ps, e)[a] && prefix[b] == Expansion(ps, e)[b];
        }
      }
      AppendedPrimitive(init, e, j, before);
      if Accepted(last, e) {
        assert Expansion(ps, e)[|prefix|] == Target(last, e).value;
        assert Target(last, e) != Some(n);
      }
      assert LastAccepted(ps, n, e) == LastAccepted(init, n, e);
      assert Origins(ps, e)[j] == Origins(init, e)[j];
    } else {
      assert Accepted(last, e) && n == Target(last, e).value;
      assert LastAccepted(ps, n, e) == Some(|ps| - 1);
    }
  }

  /** The expansion over one more projection. */
  lemma ExpansionStep(ps: seq<MotionPose>, i: nat, e: Env)
    requires AllCastable(ps) && i < |ps|
    ensures AllCastable(ps[..i]) && AllCastable(ps[..i + 1])
    ensures Expansion(ps[..i + 1], e) ==
      Expansion(ps[..i], e) + (if Accepted(ps[i], e) then [Target(ps[i], e).value] else [])
  {
    assert ps[..i + 1][..i] == ps[..i];
  }

  /** A node's fields over one more projection. */
  lemma ViewStep(ps: seq<MotionPose>, i: nat, n: NodeLattice, e: Env, v0: NodeView)
    requires AllCastable(ps) && i < |ps|
    ensures AllCastable(ps[..i]) && AllCastable(ps[..i + 1])
    ensures ViewAfter(ps[..i + 1], n, e, v0) ==
      var v := ViewAfter(ps[..i], n, e, v0);
      if Target(ps[i], e) == Some(n) then Visit(v, ps[i], i, e) else v
  {
    assert ps[..i + 1][..i] == ps[..i];
  }

  /**
   * The body of the expansion loop for a node that was found and not
   * visited: it takes the projected pose, and when that pose is valid it
   * takes `i` as its motion primitive.
   */
  method ReachNeighbor(neighbor: NodeLattice, p: MotionPose, i: nat, traverseUnknown: bool,
                       checker: CollisionChecker, binSize: real, ghost e: Env)
    returns (valid: bool)
    requires e.checker == checker && e.traverseUnknown == traverseUnknown && e.binSize == binSize
    modifies neighbor
    ensures valid == Clear(p, e)
    ensures neighbor.View() == Visit(old(neighbor.View()), p, i, e)
  {
    neighbor.pose := Coordinates(p.x, p.y, p.theta);
    valid := neighbor.IsNodeValid(traverseUnknown, checker, binSize);
    if valid {
      neighbor.motionPrimitiveIndex := i;
    }
  }

  /**
   * One pass of the expansion loop: the projection is cast to a cell index;
   * a node the getter finds and that is not visited is reached, and
   * appended when its new pose is valid.
   */
  method ExpandOne(p: MotionPose, i: nat, graph: map<nat, NodeLattice>,
                   getIndex: (nat, nat, nat) -> nat, checker: CollisionChecker,
                   traverseUnknown: bool, binSize: real, ghost e: Env, neighbors: seq<NodeLattice>)
    returns (result: seq<NodeLattice>)
    requires Castable(p)
    requires e == Env(graph, e.visited, getIndex, checker, traverseUnknown, binSize)
    requires forall n | n in graph.Values :: n.wasVisited == (n in e.visited)
    modifies graph.Values
    ensures result == neighbors + (if Accepted(p, e) then [Target(p, e).value] else [])
    ensures forall n | n in graph.Values :: n.wasVisited == (n in e.visited)
    ensures forall n | n in graph.Values ::
      n.View() == if Target(p, e) == Some(n) then Visit(old(n.View()), p, i, e) else old(n.View())
  {
    result := neighbors;
    var index := getIndex(ToUnsigned(p.x), ToUnsigned(p.y), ToUnsigned(p.theta));
    if index in graph && !graph[index].wasVisited {
      var neighbor := graph[index];
      assert Target(p, e) == Some(neighbor);
      var valid := ReachNeighbor(neighbor, p, i, traverseUnknown, checker, binSize, e);
      if valid {
        result := result + [neighbor];
      }
    } else {
      assert Target(p, e) == None;
    }
  }

  /**
   * The expansion loop of getNeighbors over a list of projections: each
   * projection is cast to a cell index; a node the getter finds and that is
   * not visited gets the projected pose, and when the pose is valid it gets
   * the projection's position as its motion primitive and is appended.
   */
  method ExpandProjections(projections: seq<MotionPose>, graph: map<nat, NodeLattice>,
                           getIndex: (nat, nat, nat) -> nat, checker: CollisionChecker,
                           traverseUnknown: bool, binSize: real, neighbors: seq<NodeLattice>)
    returns (result: seq<NodeLattice>)
    requires AllCastable(projections)
    modifies graph.Values
    ensures var e := Env(graph, old(Visited(graph)), getIndex, checker, traverseUnknown, binSize);
      result == neighbors + Expansion(projections, e)
    ensures var e := Env(graph, old(Visited(graph)), getIndex, checker, traverseUnknown, binSize);
      forall n | n in graph.Values :: n.View() == ViewAfter(projections, n, e, old(n.View()))
  {
    ghost var e := Env(graph, Visited(graph), getIndex, checker, traverseUnknown, binSize);
    result := neighbors;
    var i := 0;
    while i < |projections|
      invariant 0 <= i <= |projections|
      invariant AllCastable(projections[..i])
      invariant result == neighbors + Expansion(projections[..i], e)
      invariant forall n | n in graph.Values :: n.View() == ViewAfter(projections[..i], n, e, old(n.View()))
      invariant forall n | n in graph.Values :: n.wasVisited == (n in e.visited)
    {
      ExpansionStep(projections, i, e);
      result := ExpandOne(projections[i], i, graph, getIndex, checker, traverseUnknown, binSize, e, result);
      forall n | n in graph.Values
        ensures n.View() == ViewAfter(projections[..i + 1], n, e, old(n.View()))
      {
        ViewStep(projections, i, n, e, old(n.View()));
      }
      i := i + 1;
    }
    assert projections[..i] == projections;
  }
}
