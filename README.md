# Smac lattice node, string utilities and safety footprint, in Dafny

This project models three pieces of sequential logic from a ROS 2 navigation stack and proves
properties of them.

- **The state-lattice node of the Smac planner** (module `SmacPlanner`, file `node_lattice.dfy`).
  - The motion table shared by all nodes (`LatticeMotionTable`) has a cache-by-filepath
    `initMotionModel`. The node's own `initMotionModel` guards it and rejects every motion model
    other than `STATE_LATTICE`.
  - A `NodeLattice` object has its lifecycle fields: the constructor and `reset`. Its
    `isNodeValid` asks a collision checker and records the checker's cost.
  - `getNeighbors` expands the projected motions into neighbour nodes. It updates each node it
    reaches in place and appends the valid ones in projection order.
- **The integer bookkeeping of the lattice heuristic** (module `LatticeHeuristic`, file
  `lattice_heuristic.dfy`): the wrap of the heading-bin difference, the window test, the mirror of
  the heading bin, the distance-table index, the wavefront index with its 32-bit arithmetic, and
  `neutral_cost * max(wavefront, motion)`.
- **The string helpers of nav2_util** (module `StringUtils`, file `string_utils.dfy`):
  - `strip_leading_slash`;
  - `split`, with its join round trip;
  - the bracket parser `parseVVF`, with its four error conditions and a render/parse round trip;
  - the lenient `makeVectorPointsFromString`.
- **The footprint code of the safety node** (module `SafetyFootprint`, file `initial_node.dfy`):
  - the strict `makeFootprintFromString`, which fails on a parse error, on fewer than three rows,
    or at the first row that is not a pair;
  - `toPointVector`;
  - the `setRobotFootprint` copy into the unpadded and padded footprints. The `SafetyZone` class
    holds those footprints.

`wrappers.dfy` holds `Option`. `geometry.dfy` holds the message types `Point`, `Point32` and
`Polygon`.

The code that works by updating state is written as methods, with loop invariants where the
source loops.

- Some methods are proved equal to a specification function, and the properties are proved about
  that function as lemmas:
  - `ParseVVF` against `Parse`;
  - `MakeVectorPointsFromString` against `PairPoints`;
  - `MakeFootprintFromString` against `FootprintAfter` and `FootprintAccepted`;
  - `ExpandProjections` against `Expansion` and `ViewAfter`;
  - the table's `InitMotionModel` against `Initialized`.
- The others state their properties directly in their postconditions: `Split`, `ToPointVector`,
  the `SafetyZone` methods, and the `NodeLattice` constructor, `Reset` and `IsNodeValid`.

Each of these is a method of its own:

- `AppendLeadingPairs`, the whole conversion loop of `makeFootprintFromString`;
- `ExpandOne`, one pass of the `getNeighbors` loop;
- `ReachNeighbor`, the part of that pass that updates a reached node.

The heuristic has no loop and no state, so it is a set of functions and lemmas.

## Model

| member | source | states |
|---|---|---|
| SmacPlanner.Initialized | nav2_smac_planner/src/node_lattice.cpp:45-56 | `size_x` is always overwritten and the lattice filepath is recorded. The angle bins, bin size, turning radius and trig values keep their values. |
| SmacPlanner.InitializedOnCacheHit | nav2_smac_planner/src/node_lattice.cpp:49-54 | When the filepath is already the current one, only `size_x` changes. |
| SmacPlanner.InitializedIdempotent | nav2_smac_planner/src/node_lattice.cpp:45-56 | A second initialisation with the same arguments changes nothing more. |
| SmacPlanner.LatticeMotionTable.InitMotionModel | nav2_smac_planner/src/node_lattice.cpp:45-65 | The table's new fields are `Initialized` of its old fields, with the given size and search info. |
| SmacPlanner.LatticeMotionTable.GetProjections | nav2_smac_planner/src/node_lattice.cpp:67-70 | The stub yields no motion primitives. |
| SmacPlanner.LatticeMotionTable.GetLatticeMetadata | nav2_smac_planner/src/node_lattice.cpp:72-77 | The stub yields zero bins and a zero turning radius. |
| SmacPlanner.NodeLattice.constructor | nav2_smac_planner/src/node_lattice.cpp:79-88 | A new node has no parent, pose (0,0,0), an unset (NaN) cell cost, the float-max accumulated cost, and is neither visited nor queued. It keeps the given index. |
| SmacPlanner.NodeLattice.Reset | nav2_smac_planner/src/node_lattice.cpp:95-105 | Whatever the prior state, every field the constructor sets is back at its constructor value. The index and the motion primitive index are untouched. |
| SmacPlanner.NodeLattice.IsNodeValid | nav2_smac_planner/src/node_lattice.cpp:107-118 | The result is true exactly when the checker reports no collision at the node's pose, with the heading turned into an angle by the bin size. When true, the cell cost becomes the checker's cost. When false, the cell cost is unchanged. |
| SmacPlanner.NodeLattice.GetTraversalCost | nav2_smac_planner/src/node_lattice.cpp:120-126 | The stub costs every motion 0. |
| SmacPlanner.NodeLattice.InitMotionModel | nav2_smac_planner/src/node_lattice.cpp:191-206 | Any model other than the state lattice raises the exception with its message and leaves the table untouched. The state lattice raises nothing and initialises the table. |
| SmacPlanner.NodeLattice.GetNeighbors | nav2_smac_planner/src/node_lattice.cpp:208-243 | With the stub projections, the neighbour list and every node of the graph are unchanged. |
| SmacPlanner.ToUnsigned | nav2_smac_planner/src/node_lattice.cpp:221-224 | `static_cast<unsigned int>` of a coordinate above -1: it truncates toward zero, so every value below 1 gives 0. |
| SmacPlanner.Target | nav2_smac_planner/src/node_lattice.cpp:221-226 | The node a projection reaches: the getter finds a node at the index of the truncated coordinates, and that node is not visited. |
| SmacPlanner.Accepted | nav2_smac_planner/src/node_lattice.cpp:226-239 | A projection is appended when it reaches a node and the checker clears the projected pose. |
| SmacPlanner.Visit | nav2_smac_planner/src/node_lattice.cpp:232-238 | A reached node takes the projected pose. When that pose is clear, it also takes the checker's cost and the projection's position. |
| SmacPlanner.Expansion | nav2_smac_planner/src/node_lattice.cpp:220-241 | At most one node is appended per projection. Each appended node was found by the getter and was not visited. |
| SmacPlanner.OriginsMeaning | nav2_smac_planner/src/node_lattice.cpp:220-241 | The j-th appended node is the node of an accepted projection: found, not visited, and valid at its projected pose. The positions of those projections increase strictly, so nodes are appended in projection order. |
| SmacPlanner.AcceptedIsAppended | nav2_smac_planner/src/node_lattice.cpp:226-239 | Conversely, every accepted projection is among the origins, so its node is appended. |
| SmacPlanner.LastHit | nav2_smac_planner/src/node_lattice.cpp:226-236 | The last projection that reaches a node, or none: no later projection reaches it. |
| SmacPlanner.LastAccepted | nav2_smac_planner/src/node_lattice.cpp:226-240 | The last projection that reaches a node at a valid pose, or none. |
| SmacPlanner.ViewAfterPose | nav2_smac_planner/src/node_lattice.cpp:226-236 | After the loop, a node has the pose of the last projection that reached it, valid or not, because the pose is set before the check. |
| SmacPlanner.ViewAfterPrimitive | nav2_smac_planner/src/node_lattice.cpp:237-238 | After the loop, a node's motion primitive index is the position of the last projection that reached it at a valid pose, or its old value. |
| SmacPlanner.ViewAfterCost | nav2_smac_planner/src/node_lattice.cpp:237-238 | After the loop, a node's cell cost is the checker's cost at the last valid pose that reached it, or its old value. |
| SmacPlanner.ViewAfterKeeps | nav2_smac_planner/src/node_lattice.cpp:220-242 | The loop changes no field of a node other than its pose, cell cost and motion primitive index. |
| SmacPlanner.AppendedPrimitive | nav2_smac_planner/src/node_lattice.cpp:237-239 | When no node is appended twice, each appended node's motion primitive index equals the position of its projection in the list. |
| SmacPlanner.ReachNeighbor | nav2_smac_planner/src/node_lattice.cpp:232-240 | The reached node takes the projected pose. It is valid exactly when the checker clears that pose, and then it takes the checker's cost and the projection's position. |
| SmacPlanner.ExpandOne | nav2_smac_planner/src/node_lattice.cpp:221-241 | Over one projection, the list grows by the target node exactly when the projection is accepted. Only the target node changes, and no node's visited flag changes. |
| SmacPlanner.ExpandProjections | nav2_smac_planner/src/node_lattice.cpp:218-242 | The result is the old list followed by `Expansion`, so old contents are kept. Every node of the graph ends as `ViewAfter` of its old fields. |
| LatticeHeuristic.FloorHalf | nav2_smac_planner/src/node_lattice.cpp:161 | The floored half window h of `floor(size / 2.0)`: 2h <= size < 2h + 2. |
| LatticeHeuristic.CeilHalf | nav2_smac_planner/src/node_lattice.cpp:162 | The ceiled half window h of `ceil(size / 2.0)`: size <= 2h < size + 2. |
| LatticeHeuristic.WrapHeadingBin | nav2_smac_planner/src/node_lattice.cpp:145-150 | The wrapped difference is the difference, or it shifted by one turn. For a difference of less than one turn either way, it lies in [0, N). |
| LatticeHeuristic.WrapKeepsResidue | nav2_smac_planner/src/node_lattice.cpp:145-150 | The wrap keeps the difference's residue modulo N. |
| LatticeHeuristic.WrapOfBins | nav2_smac_planner/src/node_lattice.cpp:145-150 | For node and goal headings in [0, N), the wrapped difference lies in [0, N). It is their difference modulo N. |
| LatticeHeuristic.InWindow | nav2_smac_planner/src/node_lattice.cpp:161-164 | The window test: both \|x\| and \|y\| are below the floored half window. |
| LatticeHeuristic.ThetaPosAsWritten | nav2_smac_planner/src/node_lattice.cpp:166-171 | The heading bin as written. It agrees with the corrected mirror except at heading 0 with a negative y, which it sends to N. |
| LatticeHeuristic.ThetaPos | nav2_smac_planner/src/node_lattice.cpp:166-171 | The mirrored heading bin, with the correction below: it is `(N - t) mod N` for a negative y and `t` otherwise, and it is always a bin. |
| LatticeHeuristic.EntryOfAsWritten | nav2_smac_planner/src/node_lattice.cpp:172-173 | The entry the code reads: `x_pos = x + floored_size`, `y_pos = \|y\|`, and the heading bin as written. |
| LatticeHeuristic.LookupIndex | nav2_smac_planner/src/node_lattice.cpp:174-177 | The index `x_pos * ceiling_size * N + y_pos * N + theta_pos`. Its range and uniqueness are the two lemmas below. |
| LatticeHeuristic.EntryOfValid | nav2_smac_planner/src/node_lattice.cpp:163-173 | A cell inside the window, with a heading bin, reads an entry inside the table's three dimensions. |
| LatticeHeuristic.LookupIndexInRange | nav2_smac_planner/src/node_lattice.cpp:174-178 | The index `x_pos*ceil*N + y_pos*N + theta_pos` of a valid entry lies inside a table of `size*ceil*N` entries. |
| LatticeHeuristic.LookupIndexInjective | nav2_smac_planner/src/node_lattice.cpp:174-177 | Distinct valid entries have distinct indices. |
| LatticeHeuristic.MirrorSymmetry | nav2_smac_planner/src/node_lattice.cpp:163-177 | For y > 0, the cell (x, -y) with heading t reads the same entry as (x, y) with heading (N - t) mod N. |
| LatticeHeuristic.SameIndexIffSameEntry | nav2_smac_planner/src/node_lattice.cpp:163-177 | Two window cells read the same table index if and only if they read the same entry. |
| LatticeHeuristic.ThetaPosAsWrittenAliases | nav2_smac_planner/src/node_lattice.cpp:166-177 | As written, heading 0 at y < 0 gives bin N. With N = 72 and window 25, the cell (0,-1,0) reads index 11376, which is also the index of (0,2,0), a different entry. |
| LatticeHeuristic.ThetaPosAsWrittenOutOfRange | nav2_smac_planner/src/node_lattice.cpp:163-178 | As written, with an even window of 24 the window cell (11,-11,0) reads one past the end of the table. |
| LatticeHeuristic.WavefrontIndex | nav2_smac_planner/src/node_lattice.cpp:181-182 | `y * size_x + x` of the truncated coordinates, in 32-bit unsigned arithmetic. |
| LatticeHeuristic.WavefrontIndexOfCell | nav2_smac_planner/src/node_lattice.cpp:181-182 | On a map of at most 2^32 cells the index does not wrap. It is the row-major index of the cell and lies inside the map. |
| LatticeHeuristic.WavefrontIndexInjective | nav2_smac_planner/src/node_lattice.cpp:181-182 | Two cells of such a map share a wavefront index only when they are the same cell. |
| LatticeHeuristic.WavefrontTerm | nav2_smac_planner/src/node_lattice.cpp:185-187 | The term is never negative, and it is 0 exactly for a wavefront value of 2. For values of at least 2 it is `(value - 2) * 1.207`. Below 2 the unsigned subtraction wraps to at least `(2^32 - 2) * 1.207`. |
| LatticeHeuristic.MotionTerm | nav2_smac_planner/src/node_lattice.cpp:160-179 | Outside the window the motion term is 0. Inside the window it is an entry of the distance table. |
| LatticeHeuristic.MotionTermAsWritten | nav2_smac_planner/src/node_lattice.cpp:160-179 | The motion term as the code reads it, or none when its index falls outside the table. Outside the window it is 0. Everywhere except heading 0 at a negative y it equals the corrected motion term. |
| LatticeHeuristic.MotionTermAsWrittenAliases | nav2_smac_planner/src/node_lattice.cpp:166-178 | As written, the cell (0,-1) with heading 0 gets the table value of (0,2) with heading 0. The corrected term gives it the value of its mirror (0,1). |
| LatticeHeuristic.MotionTermMirror | nav2_smac_planner/src/node_lattice.cpp:163-178 | The motion term is the same for (x, -y, t) and (x, y, (N - t) mod N). |
| LatticeHeuristic.HeadingBin | nav2_smac_planner/src/node_lattice.cpp:145-155 | The relative heading bin of a query lies in [0, N). |
| LatticeHeuristic.Max | nav2_smac_planner/src/node_lattice.cpp:188 | `std::max` is at least each argument and equals one of them. |
| LatticeHeuristic.HeuristicCost | nav2_smac_planner/src/node_lattice.cpp:128-189 | The estimate is at least `neutral_cost` times each term, and equal to one of the two products. |
| LatticeHeuristic.HeuristicOutsideWindow | nav2_smac_planner/src/node_lattice.cpp:160-188 | Outside the window, the estimate is `neutral_cost` times the wavefront term, and is non-negative. |
| LatticeHeuristic.HeuristicAtWavefrontStart | nav2_smac_planner/src/node_lattice.cpp:183-188 | Outside the window, on a cell whose wavefront value is 2, the estimate is 0. |
| LatticeHeuristic.MirrorKeepsMotion | nav2_smac_planner/src/node_lattice.cpp:163-188 | Mirroring a node across the goal's x axis, with its heading bin mirrored, keeps the motion term. The estimate then differs only through the wavefront term of the mirrored node's own cell, which is not mirror-symmetric. |
| StringUtils.StripLeadingSlash | nav2_util/src/string_utils.cpp:28-37 | At most one character is removed, from the front. One is removed exactly when the string is non-empty and starts with '/'. |
| StringUtils.StripLeadingSlashUndoesPrefix | nav2_util/src/string_utils.cpp:28-37 | Stripping "/" + s gives s. |
| StringUtils.Find | nav2_util/src/string_utils.cpp:45 | `std::string::find` of one character: the first position at or after `from` holding it, or none when there is none. |
| StringUtils.Split | nav2_util/src/string_utils.cpp:39-51 | There is one token more than there are delimiters. No token holds the delimiter. Joining the tokens with the delimiter gives the input back. |
| StringUtils.SplitAtDelimiter | nav2_util/src/string_utils.cpp:45-48 | Cutting a token at the next delimiter keeps the loop's facts: no delimiter in the tokens, one token per delimiter read, and the tokens plus the rest join back to the input. |
| StringUtils.SplitDone | nav2_util/src/string_utils.cpp:49 | With no delimiter left, adding the rest as the last token gives the final count and keeps the tokens free of the delimiter. |
| StringUtils.JoinInjective | nav2_util/src/string_utils.cpp:39-51 | Join is injective on non-empty token lists without the delimiter. With `Split` this gives split(join(ts)) == ts. |
| StringUtils.Message | nav2_util/src/string_utils.cpp:69-114 | The error texts the parser stores. The text is empty exactly when there is no error. |
| StringUtils.SpaceSpanMeaning | nav2_util/src/string_utils.cpp:102 | The white space the extraction skips is white space only, and the skip stops at the first other character. |
| StringUtils.NumberSpanMeaning | nav2_util/src/string_utils.cpp:102 | The run of number characters the extraction takes is maximal. |
| StringUtils.ExtractFloat | nav2_util/src/string_utils.cpp:101-103 | A successful extraction consumes at least one character and never reads past the input. |
| StringUtils.ExtractFloatReads | nav2_util/src/string_utils.cpp:101-103 | The extraction succeeds exactly when the run after the white space is non-empty and the reader accepts it. It then yields the reader's value and consumes the white space and the run. |
| StringUtils.ExtractedHasNoBrackets | nav2_util/src/string_utils.cpp:101-103 | A number read from the stream holds no bracket. |
| StringUtils.Step | nav2_util/src/string_utils.cpp:65-107 | One pass of the loop. When it goes on, it consumes at least one character. An early return keeps the rows read so far and reports an error. A failed stream happens only at depth 2. |
| StringUtils.StepCounts | nav2_util/src/string_utils.cpp:69-88 | A pass that goes on keeps the depth non-negative and changes it by the brackets it consumed. |
| StringUtils.Finish | nav2_util/src/string_utils.cpp:110-116 | After the loop, the rows read so far are returned. The error is "Unterminated vector string." unless the depth is back at 0. |
| StringUtils.Run | nav2_util/src/string_utils.cpp:65-116 | The loop from a given state and stream position: one `Step` after another until the input ends, an early return, or a failed stream. |
| StringUtils.Parse | nav2_util/src/string_utils.cpp:58-117 | parseVVF as a function of its input: `Run` from depth 0 with no rows, at the start of the input. |
| StringUtils.ParseVVF | nav2_util/src/string_utils.cpp:58-117 | The loop returns exactly the rows and the error of `Parse`. |
| StringUtils.OpenTooDeep | nav2_util/src/string_utils.cpp:69-74 | A third nested '[' ends the parse at once, with the rows read so far and "Array depth greater than 2". |
| StringUtils.OpenClearsRow | nav2_util/src/string_utils.cpp:69-77 | Any other '[' goes one level deeper and starts an empty current row. |
| StringUtils.CloseTooMany | nav2_util/src/string_utils.cpp:78-83 | A ']' at depth 0 ends the parse at once, with the rows read so far and "More close ] than open [". |
| StringUtils.ClosePushesRow | nav2_util/src/string_utils.cpp:78-88 | A ']' that brings the depth to 1 appends the current row. A ']' that brings it to 0 appends nothing. |
| StringUtils.SeparatorSkipped | nav2_util/src/string_utils.cpp:89-93 | ',', ' ' and '\t' are consumed with no effect on the state. |
| StringUtils.NumberAtWrongDepth | nav2_util/src/string_utils.cpp:94-100 | Any other character outside depth 2 ends the parse with the rows read so far. The error names that character. |
| StringUtils.NumberAppended | nav2_util/src/string_utils.cpp:101-105 | At depth 2, a number the stream reads is appended to the current row, in input order. |
| StringUtils.NumberUnreadable | nav2_util/src/string_utils.cpp:65-111 | At depth 2, text the stream cannot read fails the stream. The loop ends and the parse is reported unterminated. |
| StringUtils.NoErrorMeansBalanced | nav2_util/src/string_utils.cpp:65-114 | When the parse reports no error, the input holds as many ']' as '['. In general, the '[' still pending at any point are matched by the rest of the input. |
| StringUtils.ParseRender | nav2_util/src/string_utils.cpp:54-117 | Parsing the documented syntax "[[a, b], [c, d, e]]" written out from rows of number texts gives back their values, with no error. |
| StringUtils.ParseUnclosedRender | nav2_util/src/string_utils.cpp:110-111 | The same text without its final ']' gives the same rows and "Unterminated vector string.". |
| StringUtils.PairPoints | nav2_util/src/string_utils.cpp:141-154 | At most one point per row, each with z = 0. |
| StringUtils.PairPointsConcat | nav2_util/src/string_utils.cpp:141-154 | The points of two lists of rows in sequence are those of the first followed by those of the second. |
| StringUtils.PairPointsOfPairs | nav2_util/src/string_utils.cpp:141-147 | When every row is a pair, there is one point (row[0], row[1], 0) per row, in row order. |
| StringUtils.MakeVectorPointsFromString | nav2_util/src/string_utils.cpp:122-156 | The zone is the old zone followed by the points of the two-number rows of the parse, in order. This holds whatever the parse error or the number of rows; other rows are skipped. |
| SafetyFootprint.FirstNonPair | nav2_safety_nodes/src/initial_node.cpp:109-123 | The leading rows before it are pairs, and the row at it, if any, is not. |
| SafetyFootprint.FootprintAfter | nav2_safety_nodes/src/initial_node.cpp:87-126 | The footprint after the call. A parse error or fewer than three rows leave it as it was. Otherwise it is extended by the points of the rows before the first non-pair, and those are all the rows when the string is accepted. |
| SafetyFootprint.AcceptedFootprint | nav2_safety_nodes/src/initial_node.cpp:108-126 | On an accepted string, the footprint keeps its old points and grows by one point (row[0], row[1], 0) per row, in row order. |
| SafetyFootprint.RejectedFootprint | nav2_safety_nodes/src/initial_node.cpp:87-123 | A rejected non-empty parse never leaves a point for every row. |
| SafetyFootprint.MakeFootprintFromString | nav2_safety_nodes/src/initial_node.cpp:83-127 | The result is true exactly when the parse has no error, three or more rows, and only pairs. A parse error or a short list leaves the footprint untouched. Otherwise the points of the rows before the first non-pair are appended and stay. |
| SafetyFootprint.AppendLeadingPairs | nav2_safety_nodes/src/initial_node.cpp:108-126 | The conversion loop appends the points of the leading pairs. It reports success exactly when every row is a pair. |
| SafetyFootprint.ToPointVector | nav2_safety_nodes/src/initial_node.cpp:48-55 | One converted point per polygon vertex, with the same length and order. |
| SafetyFootprint.SafetyZone.SetRobotFootprint | nav2_safety_nodes/src/initial_node.cpp:129-133 | The argument is stored unchanged as the unpadded footprint. The padded footprint is the padding of a copy of it. |
| SafetyFootprint.SafetyZone.SetRobotFootprintPolygon | nav2_safety_nodes/src/initial_node.cpp:151-155 | The polygon's converted vertices, in order, become the footprint. |
| SafetyFootprint.SafetyZone.SetFootprintFromString | nav2_safety_nodes/src/initial_node.cpp:57-66 | The constructor's set-up parses into an empty vector. It stores the result as the footprint even when the parse fails. |

## Left out

- I/O and foreign calls are left out or passed in as parameters:
  - ROS logging, parameters, subscriptions, publishers and the timer are not modelled.
  - So is `layered_costmap_->setFootprint`.
  - `padFootprint` is the parameter `pad`. The conversion `toPoint` of a polygon vertex is a parameter.
  - The collision checker, the neighbour getter (`graph`, a map from index to node) and `NodeLattice::getIndex` are parameters. Their definitions are not part of this model.
  - The checker's `getCost` is modelled as a function of the pose it last checked.
- Float text parsing (`input_ss >> value`) is the reader parameter `toFloat`:
  - The stream skips white space and takes the longest run of the characters `0-9 + - . e E`.
  - The reader turns that run into a value, or rejects it and thereby fails the stream.
  - The exact grammar of `std::num_get` is not modelled. It can stop inside such a run; "1-2" is an example.
  - Rounding to `float` is left to the reader.
- Floats are reals:
  - The unset cost (NaN) is `None`, and `std::numeric_limits<float>::max()` is its exact value.
  - `sqrt(2)` is the nearest double, and `1.207` is exact.
- getHeuristicCost:
  - The rotation of the offset into the goal's frame (`cos`/`sin`) and `round()` are floating point. They are not modelled: the rounded relative cell and heading bins are integer inputs.
  - `static_cast<unsigned int>` of a coordinate is the floor of a non-negative value.
  - The lookup tables, `size_lookup` and `NodeHybrid` are given sequences and numbers. They come from code that is not part of this model.
  - The read of the distance table uses the corrected heading bin (see Findings).
  - The unsigned subtraction `wavefront_value - 2` is modelled with its 32-bit wrap, rather than being excluded by a precondition.
- The TODO stubs (`getProjections`, `getLatticeMetadata`, `getTraversalCost`, and the file reading of the table's `initMotionModel`) are modelled as written. No behaviour from their TODO comments is modelled.
- The enumerators of `MotionModel` come from a header that is not part of this model.
- SmacPlanner.ExpandProjections: the per-node result is exact, but it is stated through `ViewAfter`, the last projection that reaches each node. `AppendedPrimitive` needs distinct appended nodes, because a node appended twice keeps only the later position.
- `NodeLattice` destructor: it only clears `parent` before the object goes away, so it has nothing to model.
- Strings are sequences of Unicode characters, while the source reads bytes. On non-ASCII input the model and the source differ:
  - The source's stream peeks one byte, so the character that `Message` puts in "Numbers at depth other than 2. Char was '…'." is one byte (string_utils.cpp:97). In the model it is one character.
  - What counts as white space, or as a number character, is decided per character rather than per byte.
- SmacPlanner.ToUnsigned: a cast of a value at or below -1, or at or above 2^32, is undefined behaviour in C++. Such projections are excluded by `Castable`, and the model does not bound the value from above.
- The header declares `makeVectorPointsFromString` as returning `bool`, while the source returns the vector. The model returns the new vector, which is also the out-parameter's new value.
- The safety node's constructor:
  - It passes the point vector to `toPointVector`, which takes a polygon, and discards the result. The model leaves out that call; it has no effect on the footprint.
  - It assigns `use_radius = false` (initial_node.cpp:57) but tests `use_radius_` (initial_node.cpp:59). That is a different name, declared in code that is not part of this model, so which branch runs is not determined by the lines shown. The model takes the string branch (`SetFootprintFromString`). The radius branch (`makeFootprintFromRadius`) is not part of this model.
  - It declares the parameter "footprint" (initial_node.cpp:34) but reads "foorprint" (initial_node.cpp:35). In ROS a read of an undeclared parameter throws, so as written the constructor never reaches the footprint set-up at initial_node.cpp:57-66. `SetFootprintFromString` models that set-up as if the read succeeded; the parameter read itself is ROS I/O and is not modelled.
- SafetyFootprint.SafetyZone.constructor: the node's footprints start empty. The source has no explicit initialisation, and nothing is proved about it beyond that.

## Findings

| source | as written | input that shows it | evidently intended | confidence | as-written member | corrected member |
|---|---|---|---|---|---|---|
| nav2_smac_planner/src/node_lattice.cpp:166-177 | For a negative relative y, `theta_pos = num_angle_quantization - theta`. Heading bin 0 then becomes bin N, which lies outside [0, N). The index then runs into the next y row's first entry, or past the end of the table. | With N = 72 and window 25, the cell (0,-1) with heading 0 reads index 11376. That is the entry of (0,2) with heading 0, which is not its mirror. With an even window of 24, the window cell (11,-11) with heading 0 reads index 20736 of a 20736-entry table. | The mirror `(N - theta) mod N`, which maps heading 0 to itself and keeps every index inside the table. | not executed | LatticeHeuristic.ThetaPosAsWrittenAliases, LatticeHeuristic.ThetaPosAsWrittenOutOfRange, LatticeHeuristic.MotionTermAsWrittenAliases | LatticeHeuristic.ThetaPos, LatticeHeuristic.MirrorSymmetry, LatticeHeuristic.SameIndexIffSameEntry |
