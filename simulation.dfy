/** One tick of the cloth simulation: Verlet integration of the free
    vertices with wall collisions, relaxation of the links with tearing, and
    the interactive cut of the link nearest to the cursor. */
module Simulation {
  import opened Geometry
  import opened ClothModel

  /** The settings the simulation reads: the window size, the collision
      radius of a vertex, drag, gravity and bounce factors, the number of
      relaxation passes per tick, the cut radius and the tear length. */
  datatype Config = Config(
    windowWidth: int,
    windowHeight: int,
    vertexRadius: int,
    drag: real,
    gravity: real,
    bounce: real,
    linkIterationCount: int,
    cutRadius: real,
    tearLength: real)

  /** The cloth's two lists at one moment. */
  datatype State = State(vertices: seq<Vertex>, links: seq<Link>)

  ghost predicate Consistent(s: State) {
    LinksInRange(s.vertices, s.links)
  }

  function Snapshot(cloth: Cloth): State
    reads cloth
  {
    State(cloth.vertices, cloth.links)
  }

  /** No vertex appears or disappears, no vertex changes whether it is
      pinned, and pinned vertices do not change at all. */
  ghost predicate PinnedKept(before: seq<Vertex>, after: seq<Vertex>) {
    && |after| == |before|
    && forall j :: 0 <= j < |before| ==>
         after[j].pinned == before[j].pinned && (before[j].pinned ==> after[j] == before[j])
  }

  /** As PinnedKept, and moreover only current positions change. */
  ghost predicate OnlyPositionsMoved(before: seq<Vertex>, after: seq<Vertex>) {
    && PinnedKept(before, after)
    && forall j :: 0 <= j < |before| ==> after[j].prevPosition == before[j].prevPosition
  }

  /** The link list only lost links: none was added. */
  ghost predicate NoLinkAdded(before: seq<Link>, after: seq<Link>) {
    |after| <= |before| && forall l :: l in after ==> l in before
  }

  // ---------------------------------------------------------------------
  // Wall collisions

  /** A coordinate lies outside [radius, extent - radius]. */
  predicate OutOfRange(c: real, extent: int, radius: int) {
    c > (extent - radius) as real || c < radius as real
  }

  /** `GetBouncedXCoord`: the wall an escaping x coordinate is put back on. */
  function GetBouncedXCoord(v: Vertex, cfg: Config): (r: real)
    ensures r == cfg.vertexRadius as real || r == (cfg.windowWidth - cfg.vertexRadius) as real
    ensures v.position.x < cfg.vertexRadius as real ==> r == cfg.vertexRadius as real
    ensures v.position.x > (cfg.windowWidth - cfg.vertexRadius) as real && v.position.x >= cfg.vertexRadius as real
            ==> r == (cfg.windowWidth - cfg.vertexRadius) as real
  {
    if v.position.x < cfg.vertexRadius as real then cfg.vertexRadius as real
    else (cfg.windowWidth - cfg.vertexRadius) as real
  }

  /** `GetBouncedYCoord`: the wall an escaping y coordinate is put back on. */
  function GetBouncedYCoord(v: Vertex, cfg: Config): (r: real)
    ensures r == cfg.vertexRadius as real || r == (cfg.windowHeight - cfg.vertexRadius) as real
    ensures v.position.y < cfg.vertexRadius as real ==> r == cfg.vertexRadius as real
    ensures v.position.y > (cfg.windowHeight - cfg.vertexRadius) as real && v.position.y >= cfg.vertexRadius as real
            ==> r == (cfg.windowHeight - cfg.vertexRadius) as real
  {
    if v.position.y < cfg.vertexRadius as real then cfg.vertexRadius as real
    else (cfg.windowHeight - cfg.vertexRadius) as real
  }

  /** The velocity a collision leaves in `velocity`: an x hit negates the y
      component, a y hit the x component, and every hit scales the whole
      vector by `bounce`. */
  function BouncedVelocity(velocity: Vec, hitX: bool, hitY: bool, bounce: real): (r: Vec)
    ensures !hitX && !hitY ==> r == velocity
    ensures hitX && !hitY ==> r == Scale(velocity.(y := -velocity.y), bounce)
    ensures hitY && !hitX ==> r == Scale(velocity.(x := -velocity.x), bounce)
    ensures hitX && hitY ==> r == Scale(Scale(velocity, -1.0), bounce * bounce)
  {
    if hitX && hitY then Scale(velocity, -(bounce * bounce))
    else if hitX then Vec(bounce * velocity.x, -(bounce * velocity.y))
    else if hitY then Vec(-(bounce * velocity.x), bounce * velocity.y)
    else velocity
  }

  /** The vertex after the collision response, stated per axis: an axis
      whose coordinate is out of range is put back on the nearer wall; on
      any hit the previous position is rewritten so that the next tick
      derives its velocity from the bounced one; without a hit nothing
      changes. */
  function ScreenConstrained(v: Vertex, velocity: Vec, cfg: Config): (r: Vertex)
    ensures r.pinned == v.pinned
    ensures (!OutOfRange(v.position.x, cfg.windowWidth, cfg.vertexRadius)
             && !OutOfRange(v.position.y, cfg.windowHeight, cfg.vertexRadius)) ==> r == v
    ensures !OutOfRange(v.position.x, cfg.windowWidth, cfg.vertexRadius) ==> r.position.x == v.position.x
    ensures !OutOfRange(v.position.y, cfg.windowHeight, cfg.vertexRadius) ==> r.position.y == v.position.y
    ensures OutOfRange(v.position.x, cfg.windowWidth, cfg.vertexRadius) ==> r.position.x == GetBouncedXCoord(v, cfg)
    ensures OutOfRange(v.position.y, cfg.windowHeight, cfg.vertexRadius) ==> r.position.y == GetBouncedYCoord(v, cfg)
    ensures 2 * cfg.vertexRadius <= cfg.windowWidth ==>
      cfg.vertexRadius as real <= r.position.x <= (cfg.windowWidth - cfg.vertexRadius) as real
    ensures 2 * cfg.vertexRadius <= cfg.windowHeight ==>
      cfg.vertexRadius as real <= r.position.y <= (cfg.windowHeight - cfg.vertexRadius) as real
  {
    var hitX := OutOfRange(v.position.x, cfg.windowWidth, cfg.vertexRadius);
    var hitY := OutOfRange(v.position.y, cfg.windowHeight, cfg.vertexRadius);
    if !hitX && !hitY then v
    else
      var p := Vec(if hitX then GetBouncedXCoord(v, cfg) else v.position.x,
                   if hitY then GetBouncedYCoord(v, cfg) else v.position.y);
      v.(position := p, prevPosition := Add(p, BouncedVelocity(velocity, hitX, hitY, cfg.bounce)))
  }

  /** `ApplyScreenContraints`: the collision response, computed axis by
      axis on a local velocity and a collision flag. */
  method ApplyScreenConstraints(vertex: Vertex, velocity: Vec, cfg: Config) returns (r: Vertex)
    ensures r == ScreenConstrained(vertex, velocity, cfg)
  {
    r := vertex;
    var v := velocity;
    var collidedWithWall := false;
    ghost var hitX := OutOfRange(vertex.position.x, cfg.windowWidth, cfg.vertexRadius);
    ghost var hitY := OutOfRange(vertex.position.y, cfg.windowHeight, cfg.vertexRadius);
    BounceSteps(velocity, cfg.bounce);

    // X axis
    if OutOfRange(r.position.x, cfg.windowWidth, cfg.vertexRadius) {
      v := v.(y := v.y * -1.0);
      v := Scale(v, cfg.bounce);
      collidedWithWall := true;
      r := r.(position := r.position.(x := GetBouncedXCoord(r, cfg)));
    }
    assert v == if hitX then BouncedVelocity(velocity, true, false, cfg.bounce) else velocity;
    assert r.position.y == vertex.position.y;

    // Y axis
    if OutOfRange(r.position.y, cfg.windowHeight, cfg.vertexRadius) {
      v := v.(x := v.x * -1.0);
      v := Scale(v, cfg.bounce);
      collidedWithWall := true;
      r := r.(position := r.position.(y := GetBouncedYCoord(r, cfg)));
    }
    assert v == BouncedVelocity(velocity, hitX, hitY, cfg.bounce);

    if collidedWithWall {
      r := r.(prevPosition := Add(r.position, v));
    }
  }

  /** The velocity updates of the collision response, one axis at a time,
      add up to BouncedVelocity. */
  lemma BounceSteps(velocity: Vec, b: real)
    ensures Scale(velocity.(y := velocity.y * -1.0), b) == BouncedVelocity(velocity, true, false, b)
    ensures Scale(velocity.(x := velocity.x * -1.0), b) == BouncedVelocity(velocity, false, true, b)
    ensures var w := BouncedVelocity(velocity, true, false, b);
      Scale(w.(x := w.x * -1.0), b) == BouncedVelocity(velocity, true, true, b)
  {
    var w := BouncedVelocity(velocity, true, false, b);
    assert (w.x * -1.0) * b == velocity.x * -(b * b);
    assert w.y * b == velocity.y * -(b * b);
  }

  /** A vertex that has left the window on the left, in a 1200 x 800 window
      with radius 1, is put back on the left wall at x = 1. */
  lemma LeftWallClamp(velocity: Vec, cfg: Config)
    requires cfg.windowWidth == 1200 && cfg.windowHeight == 800 && cfg.vertexRadius == 1
    ensures ScreenConstrained(Vertex(Vec(-5.0, 50.0), Vec(-4.0, 50.0), false), velocity, cfg).position == Vec(1.0, 50.0)
  {
  }

  /** Because the previous position is set to position + bounced velocity,
      the velocity derived right after the collision response, before the
      same tick's link relaxation moves the vertex, is the NEGATED bounced
      velocity: a hit on a single wall reverses the motion across that wall
      (damped by `bounce`) and keeps the motion along it, while a corner hit
      keeps the direction of travel. Relaxation moves positions but not
      previous positions, so the next tick's velocity also carries it. */
  lemma WallHitReflects(v: Vertex, velocity: Vec, cfg: Config)
    ensures var r := ScreenConstrained(v, velocity, cfg);
      var hitX := OutOfRange(v.position.x, cfg.windowWidth, cfg.vertexRadius);
      var hitY := OutOfRange(v.position.y, cfg.windowHeight, cfg.vertexRadius);
      var b := cfg.bounce;
      && (hitX && !hitY ==> r.Velocity() == Vec(-(b * velocity.x), b * velocity.y))
      && (hitY && !hitX ==> r.Velocity() == Vec(b * velocity.x, -(b * velocity.y)))
      && (hitX && hitY ==> r.Velocity() == Scale(velocity, b * b))
  {
  }

  // ---------------------------------------------------------------------
  // Integration

  /** One Verlet step of a vertex: damp the derived velocity by `drag`,
      remember the current position, move by the damped velocity, fall by
      `gravity`, then apply the collision response. Pinned vertices stay. */
  function Integrate(v: Vertex, cfg: Config): (r: Vertex)
    ensures r.pinned == v.pinned
    ensures v.pinned ==> r == v
  {
    if v.pinned then v
    else
      var velocity := Scale(v.Velocity(), cfg.drag);
      var moved := Add(v.position, velocity);
      ScreenConstrained(Vertex(Vec(moved.x, moved.y + cfg.gravity), v.position, v.pinned), velocity, cfg)
  }

  /** Where a free vertex would be after one step if no wall were hit. */
  function Predicted(v: Vertex, cfg: Config): Vec {
    var moved := Add(v.position, Scale(v.Velocity(), cfg.drag));
    Vec(moved.x, moved.y + cfg.gravity)
  }

  /** Away from the walls, a step of a free vertex is a Verlet step: the
      old position becomes the previous one and the new velocity is the
      damped old velocity plus gravity. */
  lemma VerletStep(v: Vertex, cfg: Config)
    requires !v.pinned
    requires !OutOfRange(Predicted(v, cfg).x, cfg.windowWidth, cfg.vertexRadius)
    requires !OutOfRange(Predicted(v, cfg).y, cfg.windowHeight, cfg.vertexRadius)
    ensures Integrate(v, cfg).prevPosition == v.position
    ensures Integrate(v, cfg).Velocity() == Add(Scale(v.Velocity(), cfg.drag), Vec(0.0, cfg.gravity))
  {
  }

  /** Every vertex stepped once. */
  function IntegrateAll(vs: seq<Vertex>, cfg: Config): (r: seq<Vertex>)
    ensures PinnedKept(vs, r)
    ensures forall j :: 0 <= j < |vs| ==> r[j] == Integrate(vs[j], cfg)
  {
    seq(|vs|, j requires 0 <= j < |vs| => Integrate(vs[j], cfg))
  }

  /** `UpdateVerticies`: steps every free vertex in place. */
  method UpdateVertices(cloth: Cloth, cfg: Config)
    requires cloth.Valid()
    modifies cloth
    ensures cloth.Valid()
    ensures cloth.links == old(cloth.links)
    ensures cloth.vertices == IntegrateAll(old(cloth.vertices), cfg)
  {
    var i := 0;
    while i < |cloth.vertices|
      invariant 0 <= i <= |cloth.vertices| == |old(cloth.vertices)|
      invariant cloth.links == old(cloth.links)
      invariant forall j :: 0 <= j < i ==> cloth.vertices[j] == Integrate(old(cloth.vertices)[j], cfg)
      invariant forall j :: i <= j < |cloth.vertices| ==> cloth.vertices[j] == old(cloth.vertices)[j]
    {
      var vertex := cloth.vertices[i];
      if !vertex.pinned {
        var velocity := vertex.Velocity();
        velocity := Scale(velocity, cfg.drag);
        vertex := vertex.(prevPosition := vertex.position);
        vertex := vertex.(position := Add(vertex.position, velocity));
        vertex := vertex.(position := vertex.position.(y := vertex.position.y + cfg.gravity));
        vertex := ApplyScreenConstraints(vertex, velocity, cfg);
        cloth.vertices := cloth.vertices[i := vertex];
      }
      i := i + 1;
    }
  }

  // ---------------------------------------------------------------------
  // Relaxation and tearing

  datatype Relaxed = Torn | Kept(vertices: seq<Vertex>)

  /** `lengthDiff / currentLength`, taken as zero for a zero length. */
  function Quotient(n: real, d: real): real {
    if d == 0.0 then 0.0 else n / d
  }

  /** What visiting one link does: it tears when stretched beyond
      `tearLength`; a compressed Fabric link is slack and moves nothing;
      otherwise each free endpoint moves by half the correction along the
      link. */
  function RelaxLink(vs: seq<Vertex>, link: Link, cfg: Config, norm: Norm): (r: Relaxed)
    requires link.InRange(vs)
    ensures r.Torn? <==> link.Stretch(vs, norm) > cfg.tearLength
    ensures r.Kept? ==> |r.vertices| == |vs|
  {
    var lengthDiff := link.Stretch(vs, norm);
    if lengthDiff > cfg.tearLength then Torn
    else if link.material == Fabric && lengthDiff < 0.0 then Kept(vs)
    else
      var adjustFactor := Quotient(lengthDiff, link.CurrentLength(vs, norm)) * 0.5;
      var offset := Scale(link.VertexDiffs(vs), adjustFactor);
      var s, e := link.start, link.end;
      var vs1 := if vs[s].pinned then vs else vs[s := vs[s].(position := Sub(vs[s].position, offset))];
      var vs2 := if vs1[e].pinned then vs1 else vs1[e := vs1[e].(position := Add(vs1[e].position, offset))];
      Kept(vs2)
  }

  /** The correction RelaxLink applies, spelled out step by step. */
  lemma RelaxLinkCorrects(vs: seq<Vertex>, link: Link, cfg: Config, norm: Norm)
    requires link.InRange(vs)
    requires !(link.Stretch(vs, norm) > cfg.tearLength)
    requires !(link.material == Fabric && link.Stretch(vs, norm) < 0.0)
    ensures
      var offset := Scale(link.VertexDiffs(vs), Quotient(link.Stretch(vs, norm), link.CurrentLength(vs, norm)) * 0.5);
      var vs1 := if vs[link.start].pinned then vs
                 else vs[link.start := vs[link.start].(position := Sub(vs[link.start].position, offset))];
      var vs2 := if vs1[link.end].pinned then vs1
                 else vs1[link.end := vs1[link.end].(position := Add(vs1[link.end].position, offset))];
      RelaxLink(vs, link, cfg, norm) == Kept(vs2)
  {
  }

  /** Visiting link `i`: a torn link is removed from the list, otherwise
      the corrected positions replace the vertices. */
  function Visit(s: State, i: nat, cfg: Config, norm: Norm): (r: State)
    requires Consistent(s) && i < |s.links|
    ensures Consistent(r) && |r.links| <= |s.links|
  {
    match RelaxLink(s.vertices, s.links[i], cfg, norm)
    case Torn =>
      RemoveAtSubset(s.links, i);
      State(s.vertices, RemoveAt(s.links, i))
    case Kept(vs) => State(vs, s.links)
  }

  /** One relaxation pass over the links from index `i` on, as the source
      scans them: after a link is torn out the scan still advances, so the
      link that moved into its slot is not visited in this pass. */
  function Pass(s: State, i: nat, cfg: Config, norm: Norm): (r: State)
    requires Consistent(s)
    ensures Consistent(r)
    decreases |s.links| - i
  {
    if i >= |s.links| then s else Pass(Visit(s, i, cfg, norm), i + 1, cfg, norm)
  }

  /** What visiting link `i` does to the state: a link stretched beyond
      `tearLength` is removed and nothing else changes; otherwise the links
      stay and only the current positions of the link's free endpoints may
      move, and a compressed Fabric link moves nothing. */
  lemma VisitOutcome(s: State, i: nat, cfg: Config, norm: Norm)
    requires Consistent(s) && i < |s.links|
    ensures var r := Visit(s, i, cfg, norm);
      var link := s.links[i];
      && (link.Stretch(s.vertices, norm) > cfg.tearLength ==> r == State(s.vertices, RemoveAt(s.links, i)))
      && (link.Stretch(s.vertices, norm) <= cfg.tearLength ==> r.links == s.links)
      && OnlyPositionsMoved(s.vertices, r.vertices)
      && NoLinkAdded(s.links, r.links)
      && (forall j :: 0 <= j < |s.vertices| && j != link.start && j != link.end ==> r.vertices[j] == s.vertices[j])
      && ((link.Stretch(s.vertices, norm) <= cfg.tearLength && link.material == Fabric
           && link.Stretch(s.vertices, norm) < 0.0) ==> r == s)
  {
    if s.links[i].Stretch(s.vertices, norm) > cfg.tearLength {
      RemoveAtSubset(s.links, i);
    }
  }

  /** A pass moves only current positions of free vertices, and only
      removes links. */
  lemma {:induction false} PassPreserves(s: State, i: nat, cfg: Config, norm: Norm)
    requires Consistent(s)
    ensures OnlyPositionsMoved(s.vertices, Pass(s, i, cfg, norm).vertices)
    ensures NoLinkAdded(s.links, Pass(s, i, cfg, norm).links)
    decreases |s.links| - i
  {
    if i < |s.links| {
      VisitOutcome(s, i, cfg, norm);
      PassPreserves(Visit(s, i, cfg, norm), i + 1, cfg, norm);
    }
  }

  /** `n` relaxation passes. */
  function Relax(s: State, n: int, cfg: Config, norm: Norm): (r: State)
    requires Consistent(s)
    ensures Consistent(r)
    decreases n
  {
    if n <= 0 then s else Pass(Relax(s, n - 1, cfg, norm), 0, cfg, norm)
  }

  /** Relaxation moves only current positions of free vertices, and only
      removes links. */
  lemma {:induction false} RelaxPreserves(s: State, n: int, cfg: Config, norm: Norm)
    requires Consistent(s)
    ensures OnlyPositionsMoved(s.vertices, Relax(s, n, cfg, norm).vertices)
    ensures NoLinkAdded(s.links, Relax(s, n, cfg, norm).links)
    decreases n
  {
    if n > 0 {
      RelaxPreserves(s, n - 1, cfg, norm);
      PassPreserves(Relax(s, n - 1, cfg, norm), 0, cfg, norm);
    }
  }

  /** `UpdateLinks`: `linkIterationCount` passes over the links, tearing
      and correcting them in place. */
  method UpdateLinks(cloth: Cloth, cfg: Config, norm: Norm)
    requires cloth.Valid()
    modifies cloth
    ensures cloth.Valid()
    ensures Snapshot(cloth) == Relax(old(Snapshot(cloth)), cfg.linkIterationCount, cfg, norm)
  {
    ghost var initial := Snapshot(cloth);
    var h := 0;
    while h < cfg.linkIterationCount
      invariant 0 <= h && (h <= cfg.linkIterationCount || h == 0)
      invariant cloth.Valid()
      invariant Snapshot(cloth) == Relax(initial, h, cfg, norm)
    {
      RelaxLinksOnce(cloth, cfg, norm);
      assert Relax(initial, h + 1, cfg, norm) == Pass(Relax(initial, h, cfg, norm), 0, cfg, norm);
      h := h + 1;
    }
  }

  /** One pass of `UpdateLinks` over the current links, by index: a torn
      link is removed with `RemoveLink(i)` and the index still advances. */
  method RelaxLinksOnce(cloth: Cloth, cfg: Config, norm: Norm)
    requires cloth.Valid()
    modifies cloth
    ensures cloth.Valid()
    ensures Snapshot(cloth) == Pass(old(Snapshot(cloth)), 0, cfg, norm)
  {
    ghost var before := Snapshot(cloth);
    var i := 0;
    while i < |cloth.links|
      invariant cloth.Valid()
      invariant Pass(Snapshot(cloth), i, cfg, norm) == Pass(before, 0, cfg, norm)
      decreases |cloth.links| + 1 - i
    {
      VisitLink(cloth, i, cfg, norm);
      i := i + 1;
    }
  }

  /** The body of `UpdateLinks`' inner loop for link `i`: tear it out if it
      is stretched beyond `tearLength`, otherwise move its free endpoints
      towards (or away from) each other by half the excess each. */
  method VisitLink(cloth: Cloth, i: nat, cfg: Config, norm: Norm)
    requires cloth.Valid() && i < |cloth.links|
    modifies cloth
    ensures cloth.Valid()
    ensures Snapshot(cloth) == Visit(old(Snapshot(cloth)), i, cfg, norm)
  {
    ghost var current := Snapshot(cloth);
    var link := cloth.links[i];
    var currentLength := link.CurrentLength(cloth.vertices, norm);
    var vertexDiffs := link.VertexDiffs(cloth.vertices);
    var lengthDiff := currentLength - link.originalLength;
    assert lengthDiff == link.Stretch(current.vertices, norm);

    if lengthDiff > cfg.tearLength {
      cloth.RemoveLink(i);
    } else if link.material == Fabric && lengthDiff < 0.0 {
      // A compressed Fabric link pushes nothing
    } else {
      // Shrink or grow the link towards its rest length
      var adjustFactor := Quotient(lengthDiff, currentLength) * 0.5;
      var offset := Scale(vertexDiffs, adjustFactor);
      ghost var vs0 := current.vertices;
      RelaxLinkCorrects(vs0, link, cfg, norm);
      ghost var vs1 := if vs0[link.start].pinned then vs0
                       else vs0[link.start := vs0[link.start].(position := Sub(vs0[link.start].position, offset))];
      if !cloth.vertices[link.start].pinned {
        var v := cloth.vertices[link.start];
        cloth.vertices := cloth.vertices[link.start := v.(position := Sub(v.position, offset))];
      }
      assert cloth.vertices == vs1;
      if !cloth.vertices[link.end].pinned {
        var v := cloth.vertices[link.end];
        cloth.vertices := cloth.vertices[link.end := v.(position := Add(v.position, offset))];
      }
    }
  }

  /** Links before the scan position are never touched by the rest of the
      pass. */
  lemma VisitKeepsPrefix(s: State, i: nat, cfg: Config, norm: Norm)
    requires Consistent(s) && i < |s.links|
    ensures i <= |Visit(s, i, cfg, norm).links| && Visit(s, i, cfg, norm).links[..i] == s.links[..i]
  {
    match RelaxLink(s.vertices, s.links[i], cfg, norm) {
      case Torn => assert Visit(s, i, cfg, norm).links == RemoveAt(s.links, i);
      case Kept(_) =>
    }
  }

  lemma {:induction false} PassKeepsVisited(s: State, i: nat, cfg: Config, norm: Norm)
    requires Consistent(s) && i <= |s.links|
    ensures i <= |Pass(s, i, cfg, norm).links|
    ensures Pass(s, i, cfg, norm).links[..i] == s.links[..i]
    decreases |s.links| - i
  {
    if i < |s.links| {
      var t := Visit(s, i, cfg, norm);
      VisitKeepsPrefix(s, i, cfg, norm);
      assert Pass(s, i, cfg, norm) == Pass(t, i + 1, cfg, norm);
      if i + 1 <= |t.links| {
        PassKeepsVisited(t, i + 1, cfg, norm);
        assert Pass(t, i + 1, cfg, norm).links[..i] == Pass(t, i + 1, cfg, norm).links[..i + 1][..i];
      } else {
        assert Pass(t, i + 1, cfg, norm) == t;
      }
    }
  }

  /** A link stretched beyond `tearLength` when it is visited is removed,
      and the link that followed it takes its slot unvisited: it survives
      the pass however far it is stretched. */
  lemma TornSuccessorSkipped(s: State, i: nat, cfg: Config, norm: Norm)
    requires Consistent(s) && i + 1 < |s.links|
    requires s.links[i].Stretch(s.vertices, norm) > cfg.tearLength
    ensures |Pass(s, i, cfg, norm).links| < |s.links|
    ensures i < |Pass(s, i, cfg, norm).links| && Pass(s, i, cfg, norm).links[i] == s.links[i + 1]
  {
    var rest := RemoveAt(s.links, i);
    RemoveAtSubset(s.links, i);
    PassKeepsVisited(State(s.vertices, rest), i + 1, cfg, norm);
    PassPreserves(State(s.vertices, rest), i + 1, cfg, norm);
    assert Pass(s, i, cfg, norm) == Pass(State(s.vertices, rest), i + 1, cfg, norm);
    assert Pass(s, i, cfg, norm).links[..i + 1][i] == rest[..i + 1][i];
  }

  /** Correcting a link whose endpoints are distinct and whose length is
      positive: with both endpoints free it is restored to its rest length at
      once, with one free it loses half its stretch, with both pinned it
      keeps it. */
  lemma RelaxStretch(vs: seq<Vertex>, link: Link, cfg: Config, norm: Norm)
    requires IsNorm(norm) && link.InRange(vs) && link.start != link.end
    requires link.originalLength >= 0.0 && link.CurrentLength(vs, norm) > 0.0
    requires link.Stretch(vs, norm) <= cfg.tearLength
    requires link.material == Wood || link.Stretch(vs, norm) >= 0.0
    ensures RelaxLink(vs, link, cfg, norm).Kept?
    ensures var after := RelaxLink(vs, link, cfg, norm).vertices;
      var freeEnds := (if vs[link.start].pinned then 0 else 1) + (if vs[link.end].pinned then 0 else 1);
      link.Stretch(after, norm)
        == if freeEnds == 2 then 0.0 else if freeEnds == 1 then link.Stretch(vs, norm) / 2.0 else link.Stretch(vs, norm)
  {
    var s, e := link.start, link.end;
    var c := link.CurrentLength(vs, norm);
    var ld := link.Stretch(vs, norm);
    var f := Quotient(ld, c) * 0.5;
    var D := Sub(vs[s].position, vs[e].position);
    RelaxLinkCorrects(vs, link, cfg, norm);
    var after := RelaxLink(vs, link, cfg, norm).vertices;
    assert after[s].position == if vs[s].pinned then vs[s].position else Sub(vs[s].position, Scale(D, f));
    assert after[e].position == if vs[e].pinned then vs[e].position else Add(vs[e].position, Scale(D, f));
    CorrectedLength(vs[s].position, vs[e].position, after[s].position, after[e].position,
                    !vs[s].pinned, !vs[e].pinned, link.originalLength, norm);
  }

  /** The length correction on plain positions: moving each free end of a
      segment of length c by (c - orig) / 2c of the segment brings its
      length back by half the excess per free end. */
  lemma CorrectedLength(S: Vec, E: Vec, S': Vec, E': Vec, moveStart: bool, moveEnd: bool, orig: real, norm: Norm)
    requires IsNorm(norm) && orig >= 0.0 && norm(Sub(S, E)) > 0.0
    requires var c := norm(Sub(S, E));
      var f := Quotient(c - orig, c) * 0.5;
      && S' == (if moveStart then Sub(S, Scale(Sub(S, E), f)) else S)
      && E' == (if moveEnd then Add(E, Scale(Sub(S, E), f)) else E)
    ensures var c := norm(Sub(S, E));
      norm(Sub(S', E')) - orig
        == if moveStart && moveEnd then 0.0 else if moveStart || moveEnd then (c - orig) / 2.0 else c - orig
  {
    var D := Sub(S, E);
    var c := norm(D);
    var ld := c - orig;
    var q := ld / c;
    var f := q * 0.5;
    var t := (if moveStart then 0.5 else 0.0) + (if moveEnd then 0.5 else 0.0);
    var k := 1.0 - t * q;
    StepAlongLink(S, E, f, moveStart, moveEnd);
    assert Sub(S', E') == Scale(D, k);
    Shrink(c, ld, t);
    ScaledNorm(norm, D, k);
    assert norm(Sub(S', E')) == c - t * ld;
  }

  /** Moving the two ends of a segment towards each other by f of its
      length each shortens it to (1 - 2f) of its length. */
  lemma StepAlongLink(S: Vec, E: Vec, f: real, moveStart: bool, moveEnd: bool)
    ensures var D := Sub(S, E);
      var t := (if moveStart then 0.5 else 0.0) + (if moveEnd then 0.5 else 0.0);
      Sub(if moveStart then Sub(S, Scale(D, f)) else S, if moveEnd then Add(E, Scale(D, f)) else E)
        == Scale(D, 1.0 - t * (f * 2.0))
  {
    var D := Sub(S, E);
    var t := (if moveStart then 0.5 else 0.0) + (if moveEnd then 0.5 else 0.0);
    var S' := if moveStart then Sub(S, Scale(D, f)) else S;
    var E' := if moveEnd then Add(E, Scale(D, f)) else E;
    var m := (if moveStart then 1.0 else 0.0) + (if moveEnd then 1.0 else 0.0);
    assert t * (f * 2.0) == m * f;
    assert Sub(S', E') == Vec(D.x - m * (D.x * f), D.y - m * (D.y * f));
    assert D.x * (1.0 - m * f) == D.x - m * (D.x * f);
    assert D.y * (1.0 - m * f) == D.y - m * (D.y * f);
  }

  lemma Shrink(c: real, ld: real, t: real)
    requires c > 0.0 && ld <= c && 0.0 <= t <= 1.0
    ensures 1.0 - t * (ld / c) >= 0.0
    ensures (1.0 - t * (ld / c)) * c == c - t * ld
  {
    assert (ld / c) * c == ld;
    var k := 1.0 - t * (ld / c);
    assert k * c == c - t * ((ld / c) * c);
    assert k * c == c - t * ld;
    if ld >= 0.0 {
      assert t * ld <= 1.0 * ld;
    } else {
      assert t * ld <= 0.0;
    }
    assert k * c >= 0.0;
  }

  lemma ScaledNorm(norm: Norm, v: Vec, k: real)
    requires IsNorm(norm) && k >= 0.0
    ensures norm(Scale(v, k)) == k * norm(v)
  {
  }

  // ---------------------------------------------------------------------
  // Cutting the link nearest to the cursor

  function MidpointDistance(vs: seq<Vertex>, link: Link, mouse: Vec, norm: Norm): real
    requires link.InRange(vs)
  {
    Distance(mouse, link.Midpoint(vs), norm)
  }

  /** Link k has the smallest midpoint distance, and every link before it
      is strictly farther. */
  ghost predicate IsFirstClosest(vs: seq<Vertex>, ls: seq<Link>, mouse: Vec, norm: Norm, k: int)
    requires LinksInRange(vs, ls)
  {
    && 0 <= k < |ls|
    && forall j :: 0 <= j < |ls| ==>
         && MidpointDistance(vs, ls[k], mouse, norm) <= MidpointDistance(vs, ls[j], mouse, norm)
         && (j < k ==> MidpointDistance(vs, ls[k], mouse, norm) < MidpointDistance(vs, ls[j], mouse, norm))
  }

  datatype Nearest = NoLinks | Nearest(index: nat, distance: real)

  /** The nearest link by midpoint distance; the first one wins a tie. */
  function ClosestLink(vs: seq<Vertex>, ls: seq<Link>, mouse: Vec, norm: Norm): (r: Nearest)
    requires LinksInRange(vs, ls)
    ensures r.NoLinks? <==> ls == []
    ensures r.Nearest? ==>
      IsFirstClosest(vs, ls, mouse, norm, r.index) && r.distance == MidpointDistance(vs, ls[r.index], mouse, norm)
    decreases |ls|
  {
    if ls == [] then NoLinks
    else
      var best := ClosestLink(vs, ls[..|ls| - 1], mouse, norm);
      var d := MidpointDistance(vs, ls[|ls| - 1], mouse, norm);
      if best.NoLinks? || d < best.distance then Nearest(|ls| - 1, d) else best
  }

  /** `GetClosestLink`: a linear scan keeping the running minimum, replaced
      only by a strictly smaller distance. */
  method GetClosestLink(vs: seq<Vertex>, ls: seq<Link>, mouse: Vec, norm: Norm) returns (r: Nearest)
    requires LinksInRange(vs, ls)
    ensures r == ClosestLink(vs, ls, mouse, norm)
  {
    r := NoLinks;
    var i := 0;
    while i < |ls|
      invariant 0 <= i <= |ls|
      invariant r == ClosestLink(vs, ls[..i], mouse, norm)
    {
      var midpoint := ls[i].Midpoint(vs);
      var distanceFromMouse := Distance(mouse, midpoint, norm);
      if r.NoLinks? || distanceFromMouse < r.distance {
        r := Nearest(i, distanceFromMouse);
      }
      assert ls[..i + 1][..i] == ls[..i];
      i := i + 1;
    }
    assert ls[..i] == ls;
  }

  /** The links after a cut at `mouse`: the first nearest link is removed
      exactly when some link's midpoint is within `cutRadius`. */
  function CutLinks(vs: seq<Vertex>, ls: seq<Link>, mouse: Vec, cfg: Config, norm: Norm): (r: seq<Link>)
    requires LinksInRange(vs, ls)
    ensures LinksInRange(vs, r) && NoLinkAdded(ls, r)
    ensures (exists j :: 0 <= j < |ls| && MidpointDistance(vs, ls[j], mouse, norm) < cfg.cutRadius) ==>
      exists k :: IsFirstClosest(vs, ls, mouse, norm, k) && r == RemoveAt(ls, k)
    ensures (forall j :: 0 <= j < |ls| ==> MidpointDistance(vs, ls[j], mouse, norm) >= cfg.cutRadius) ==>
      r == ls
  {
    match ClosestLink(vs, ls, mouse, norm)
    case NoLinks => ls
    case Nearest(k, d) =>
      RemoveAtSubset(ls, k);
      if d < cfg.cutRadius then RemoveAt(ls, k) else ls
  }

  /** `RemoveClosestLink`. */
  method RemoveClosestLink(cloth: Cloth, mouse: Vec, cfg: Config, norm: Norm)
    requires cloth.Valid()
    modifies cloth
    ensures cloth.Valid()
    ensures cloth.vertices == old(cloth.vertices)
    ensures cloth.links == CutLinks(old(cloth.vertices), old(cloth.links), mouse, cfg, norm)
  {
    var closest := GetClosestLink(cloth.vertices, cloth.links, mouse, norm);
    if closest.Nearest? && closest.distance < cfg.cutRadius {
      cloth.RemoveLink(closest.index);
    }
  }

  // ---------------------------------------------------------------------
  // A tick

  /** One tick: an optional cut, then every vertex, then every link. */
  function Tick(s: State, clicked: bool, cursor: Vec, cfg: Config, norm: Norm): (r: State)
    requires Consistent(s)
    ensures Consistent(r)
  {
    var links := if clicked then CutLinks(s.vertices, s.links, cursor, cfg, norm) else s.links;
    Relax(State(IntegrateAll(s.vertices, cfg), links), cfg.linkIterationCount, cfg, norm)
  }

  /** Pinned vertices keep their position and previous position through a
      tick, and a tick never adds a link. */
  lemma TickPreserves(s: State, clicked: bool, cursor: Vec, cfg: Config, norm: Norm)
    requires Consistent(s)
    ensures PinnedKept(s.vertices, Tick(s, clicked, cursor, cfg, norm).vertices)
    ensures NoLinkAdded(s.links, Tick(s, clicked, cursor, cfg, norm).links)
  {
    var links := if clicked then CutLinks(s.vertices, s.links, cursor, cfg, norm) else s.links;
    RelaxPreserves(State(IntegrateAll(s.vertices, cfg), links), cfg.linkIterationCount, cfg, norm);
  }

  /** `Update`, with the mouse state given as plain parameters. */
  method Update(cloth: Cloth, cfg: Config, norm: Norm, clicked: bool, cursor: Vec)
    requires cloth.Valid()
    modifies cloth
    ensures cloth.Valid()
    ensures Snapshot(cloth) == Tick(old(Snapshot(cloth)), clicked, cursor, cfg, norm)
  {
    if clicked {
      RemoveClosestLink(cloth, cursor, cfg, norm);
    }
    UpdateVertices(cloth, cfg);
    UpdateLinks(cloth, cfg, norm);
  }

  datatype Input = Input(clicked: bool, cursor: Vec)

  /** The state after one tick per input. */
  function Run(s: State, inputs: seq<Input>, cfg: Config, norm: Norm): State
    requires Consistent(s)
    decreases |inputs|
  {
    if inputs == [] then s else Run(Tick(s, inputs[0].clicked, inputs[0].cursor, cfg, norm), inputs[1..], cfg, norm)
  }

  /** Over any number of ticks, pinned vertices never move, and a link that
      is gone (torn or cut) never comes back. */
  lemma {:induction false} RunKeepsPinnedAndLosesLinks(s: State, inputs: seq<Input>, cfg: Config, norm: Norm)
    requires Consistent(s)
    ensures PinnedKept(s.vertices, Run(s, inputs, cfg, norm).vertices)
    ensures forall l :: l !in s.links ==> l !in Run(s, inputs, cfg, norm).links
    decreases |inputs|
  {
    if inputs != [] {
      var next := Tick(s, inputs[0].clicked, inputs[0].cursor, cfg, norm);
      TickPreserves(s, inputs[0].clicked, inputs[0].cursor, cfg, norm);
      RunKeepsPinnedAndLosesLinks(next, inputs[1..], cfg, norm);
    }
  }
}
