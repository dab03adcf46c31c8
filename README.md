# Verlet cloth simulation

A model of the cloth simulation in `Game1.cs`. The cloth is a rectangular
grid of point masses (`Vertex`) joined by distance constraints (`Link`).
Each tick does three things in order:

- if the mouse button is down, the link whose midpoint is nearest the cursor is cut, provided it is within `CutRadius`;
- every free vertex takes a Verlet step with drag and gravity, and bounces off the window walls;
- the links are relaxed `LinkIterationCount` times. A link stretched beyond `TearLength` is torn out. The other links move their free endpoints back towards their rest length, except compressed Fabric links, which push nothing.

The project has three modules:

- `Geometry` (`geometry.dfy`): two-dimensional vectors over the reals. It also has the length function that `Vector2.Distance` is built on. That function is a parameter `norm`, and lemmas that need it to behave like a length require `IsNorm`: non-negative, and scaling a vector by `k` scales its length by `|k|`.
- `ClothModel` (`cloth.dfy`): `Vertex`, `Link`, `Material` and the `Cloth` class. `Cloth` has two fields, `vertices: seq<Vertex>` and `links: seq<Link>`. A link names its endpoints by their index in `vertices`, not by object reference. The constructor's nested loops are proved against `GridVertices` and `GridLinks`, which specify the grid. Lemmas then state the grid's layout, pinning, link shape, order, completeness and count.
- `Simulation` (`simulation.dfy`): the tick. `UpdateVertices`, `UpdateLinks`, `GetClosestLink`, `RemoveClosestLink`, `ApplyScreenConstraints` and `Update` keep the source's loops and in-place updates. Each of them is proved equal to a function: `UpdateVertices` to `IntegrateAll` on the vertex list, `UpdateLinks` to `Relax`/`Pass`/`Visit` and `Update` to `Tick` on a snapshot `State` of the two lists, `GetClosestLink` and `RemoveClosestLink` to `ClosestLink` and `CutLinks` on the two sequences, and `ApplyScreenConstraints` to `ScreenConstrained` on a single `Vertex`. The properties are proved about those functions.

Some behaviours of the code worth knowing:

- In `UpdateLinks`, the index still advances after `Cloth.RemoveLink(i); continue;`. The link that moves into slot `i` is therefore not visited in that pass; `TornSuccessorSkipped` states it.
- The constructor does not reject a non-positive width, height or spacing. A non-positive width or height just gives empty lists, and the constructor's contract says so.
- A collision writes `PrevPosition = Position + bouncedVelocity`. The velocity derived right after the collision response, before the same tick's link relaxation moves the vertex, is therefore the negated bounced velocity. At that point a hit on a single wall has reversed the motion across that wall and kept the motion along it, damped by `Bounce`, and a corner hit has kept the direction of travel (`WallHitReflects`). Relaxation then moves free vertices without touching `PrevPosition`, so the velocity the next tick derives also carries that correction.

## Model

| member | source | states |
|---|---|---|
| ClothModel.Vertex.Velocity | Game1.cs:284 | the derived velocity is the displacement since the previous position: `prevPosition + velocity == position` |
| ClothModel.Link.VertexDiffs | Game1.cs:296 | the vector from the end point to the start point: `end + d == start` |
| ClothModel.Link.CurrentLength | Game1.cs:294 | the length of `VertexDiffs`, never negative for a length function |
| ClothModel.NewLink | Game1.cs:300-306 | the link joins the given endpoints with the given material, its rest length is never negative for a length function, and it is at rest while its endpoints stay where they were when it was made; the source's default material `Wood` is not modelled since every call passes `Fabric` |
| ClothModel.NewVertex | Game1.cs:274-279 | the vertex sits at `pos` with the given pinned flag, and the velocity derived from it is exactly the `velocity` passed in |
| ClothModel.Link.Midpoint | Game1.cs:298 | the midpoint is as far from the start point as the end point is from it: `m - start == end - m` |
| ClothModel.RemoveAt | Game1.cs:354 | `List.RemoveAt(i)`: one element fewer; elements before `i` keep their index, and elements after it move down by one |
| ClothModel.Cloth.RemoveLink | Game1.cs:352-355 | the link list becomes `RemoveAt(old links, index)`, the vertices are unchanged, and every remaining link still refers to existing vertices |
| ClothModel.Cloth.constructor | Game1.cs:314-350 | a non-positive width or height gives empty lists; otherwise the vertices are `GridVertices(width*height)` and the links are `GridLinks(width*height)`, all in range |
| ClothModel.Cloth.AddGridVertex | Game1.cs:323-347 | one pass of the inner loop body takes the lists of the first `k` cells to those of the first `k+1` cells |
| ClothModel.GridVertices | Game1.cs:319-347 | there are `n` vertices; vertex `k` is pinned exactly when `k % height == 0`, and every vertex starts with zero velocity |
| ClothModel.GridVertexAt | Game1.cs:319-347 | cell (x, y) is stored at index `x*height + y < width*height`, at `start + (x*spacing, y*spacing)`, with `prevPosition == position`, and is pinned exactly when `y == 0` |
| ClothModel.GridLinksShape | Game1.cs:325-339 | every grid link is Fabric and in range, has `start < end`, joins a vertex to the one above it in the same column (`k-1` to `k`, `k` not at the top of the column) or to the one on its left (`k-height` to `k`), and is at rest when built |
| ClothModel.GridLinksOrder | Game1.cs:325-339 | links are ordered by end vertex; of the two links made for one cell, the one from the vertex above comes before the one from the vertex on the left |
| ClothModel.GridLinksComplete | Game1.cs:325-339 | every vertex is linked to the vertex above it (unless in the top row) and to the vertex on its left (unless in the first column) |
| ClothModel.GridLinksCount | Game1.cs:319-339 | a width x height grid has `width*(height-1) + (width-1)*height` links |
| Simulation.GetBouncedXCoord | Game1.cs:212-222 | the result is one of the two x bounds: `VertexRadius` when x is below it, `WindowWidth - VertexRadius` when x is above that and not below `VertexRadius` |
| Simulation.GetBouncedYCoord | Game1.cs:224-234 | the same for y and `WindowHeight` |
| Simulation.BouncedVelocity | Game1.cs:191-201 | an x hit flips the y component and scales the velocity by `Bounce`, a y hit flips the x component and scales by `Bounce`, a corner hit does both (the negated velocity scaled by `Bounce` squared), and no hit leaves it unchanged |
| Simulation.ScreenConstrained | Game1.cs:183-210 | an out-of-range coordinate becomes `GetBouncedXCoord`/`GetBouncedYCoord` of the vertex, i.e. the bound on the side it crossed; the pinned flag is kept; with no coordinate out of range the vertex is unchanged; a coordinate in range is unchanged; when `2*VertexRadius` fits in the window, the result lies inside `[VertexRadius, extent - VertexRadius]` on both axes |
| Simulation.LeftWallClamp | Game1.cs:189-194 | a vertex at (-5, 50) in a 1200 x 800 window with radius 1 is put back at (1, 50) |
| Simulation.ApplyScreenConstraints | Game1.cs:183-210 | the step-by-step update (local velocity, collision flag, one axis at a time) computes exactly `ScreenConstrained` |
| Simulation.WallHitReflects | Game1.cs:188-209 | the velocity derived right after the collision response, before the same tick's link relaxation moves the vertex, is `(-b*vx, b*vy)` after an x-only hit, `(b*vx, -b*vy)` after a y-only hit, and `b*b*velocity` after a corner hit |
| Simulation.Integrate | Game1.cs:127-136 | the pinned flag is kept, and a pinned vertex is left exactly as it was |
| Simulation.VerletStep | Game1.cs:130-136 | away from the walls, a free vertex's old position becomes its previous one, and its new velocity is the old one times `Drag`, plus `(0, Gravity)` |
| Simulation.IntegrateAll | Game1.cs:123-138 | the vertex count and pinned flags are kept, pinned vertices do not change at all, and every vertex is stepped once |
| Simulation.UpdateVertices | Game1.cs:123-138 | the in-place loop leaves the vertices equal to `IntegrateAll(old vertices)` and the links unchanged |
| Simulation.RelaxLink | Game1.cs:146-178 | a link tears exactly when its stretch exceeds `TearLength`; otherwise the vertex count is kept |
| Simulation.Visit | Game1.cs:146-178 | visiting link `i` keeps every link in range and never lengthens the list; what it does to the state is `VisitOutcome` |
| Simulation.VisitOutcome | Game1.cs:146-178 | visiting link `i`: if it is stretched beyond `TearLength`, it is removed and nothing else changes; otherwise the links stay, only the current positions of free vertices change, only the link's two endpoints can move, and a compressed Fabric link moves nothing |
| Simulation.VisitLink | Game1.cs:146-178 | the in-place body of the inner loop (`RemoveLink(i)` or position updates) computes exactly `Visit(old state, i)` |
| Simulation.Pass | Game1.cs:144-179 | the pass from index `i` on, advancing the index after a removal as the source does, keeps every link in range; its effects are `PassPreserves`, `PassKeepsVisited` and `TornSuccessorSkipped` |
| Simulation.PassPreserves | Game1.cs:144-179 | a pass over the links moves only current positions of free vertices and adds no link |
| Simulation.PassKeepsVisited | Game1.cs:144-179 | the links before the scan index are left in place by the rest of the pass |
| Simulation.TornSuccessorSkipped | Game1.cs:152-156 | when link `i` tears, the link after it ends up in slot `i` without being visited, so it survives the pass however far it is stretched, and the pass shortens the list |
| Simulation.RelaxStretch | Game1.cs:164-178 | when a link of positive length that does not tear is corrected, its stretch becomes 0 with both endpoints free, half its old value with one free endpoint, and unchanged with both pinned |
| Simulation.CorrectedLength | Game1.cs:165-177 | on positions: moving each free end by `adjustFactor` of the segment brings its length to the rest length when both ends move, and halves the excess when one end moves |
| Simulation.RelaxLinksOnce | Game1.cs:144-179 | the inner index loop, removing links as it goes, computes exactly `Pass(old state, 0)` |
| Simulation.Relax | Game1.cs:140-181 | `n` passes keep every link in range; their effects are `RelaxPreserves` |
| Simulation.RelaxPreserves | Game1.cs:140-181 | any number of relaxation passes move only current positions of free vertices and add no link |
| Simulation.UpdateLinks | Game1.cs:140-181 | the nested loops compute exactly `Relax(old state, LinkIterationCount)` and keep every link in range |
| Simulation.ClosestLink | Game1.cs:247-268 | there is no nearest link exactly when there are no links; otherwise the index has the smallest midpoint distance, every earlier link is strictly farther (the first wins a tie), and the distance is that link's |
| Simulation.GetClosestLink | Game1.cs:247-268 | the running-minimum loop returns exactly `ClosestLink` |
| Simulation.CutLinks | Game1.cs:236-245 | links stay in range and none is added; if some midpoint lies within `CutRadius`, exactly the first nearest link is removed; otherwise, including with no links, the list is unchanged |
| Simulation.RemoveClosestLink | Game1.cs:236-245 | the vertices are unchanged and the links become `CutLinks(old links)` |
| Simulation.Tick | Game1.cs:77-83 | a cut on the current positions when clicked, then integration, then relaxation, keeps every link in range; its effects are `TickPreserves` |
| Simulation.TickPreserves | Game1.cs:77-83 | a tick keeps every pinned vertex exactly where it was and adds no link |
| Simulation.Update | Game1.cs:77-83 | the cut (when clicked), then the vertex loop, then the link loop compute exactly `Tick(old state, clicked, cursor)` |
| Simulation.RunKeepsPinnedAndLosesLinks | Game1.cs:70-86 | over any sequence of ticks, pinned vertices never move, and a link that has been torn or cut never comes back |

## Left out

- Rendering (`Draw`), loading the vertex texture (`LoadContent`), window and graphics setup (`Initialize`, the `Game1` constructor): graphics and file I/O.
- Keyboard polling and the Escape key: input polling. The mouse button and cursor are parameters of `Update`.
- The configuration constants set in `LoadContent`: they are a `Config` parameter, so every property holds for all values. The constructor's arguments are parameters too.
- Single-precision floating point: coordinates are reals, and nothing is claimed about rounding, overflow, NaN or numeric convergence.
- The square root in `Vector2.Distance`: it is the parameter `norm`. `RelaxStretch` and `CorrectedLength` require it to be non-negative and absolutely homogeneous.
- The `float.MaxValue` start of `GetClosestLink`: `ClosestLink` returns `NoLinks` instead. The only difference would be a cut radius above `float.MaxValue`.
- Simulation.RelaxLink: when the current length is zero, the source divides by zero and gets NaN or infinity. The model uses an adjustment factor of 0 there (`Quotient`).
- Nulling `link.Start` and `link.End` before a cut: links are indices, and the removed link is gone from the list.
- Vertex object identity: `Link.Start`/`End` are object references in the source and indices here. Updating a vertex through a link is an update of `vertices` at that index.
- `x * spacing` and `y * spacing` are unbounded integers: 32-bit overflow of the grid positions is not modelled.
- ClothModel.RemoveAt: requires a valid index, so `List.RemoveAt`'s out-of-range exception is not modelled; every caller passes a valid index (the scan index below the list length, and the index of the nearest link).
- ClothModel.Cloth.constructor: it takes `norm` as a parameter to compute each link's rest length. The source calls `Vector2.Distance`.
- Simulation.RelaxLinksOnce, Simulation.VisitLink and ClothModel.Cloth.AddGridVertex are the bodies of the source's outer and inner loops, split into their own methods. The loop structure and the order of updates are the source's.
