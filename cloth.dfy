/** The cloth's data model: point masses (`Vertex`), distance constraints
    between them (`Link`), their material, and the `Cloth` that owns both
    collections and builds the rectangular grid. Links refer to vertices by
    their index in the cloth's vertex list. */
module ClothModel {
  import opened Geometry

  datatype Material = Wood | Fabric

  /** A point mass. Its velocity is never stored: it is derived from the
      position one tick earlier (Verlet form). */
  datatype Vertex = Vertex(position: Vec, prevPosition: Vec, pinned: bool) {
    function Velocity(): (v: Vec)
      ensures Add(prevPosition, v) == position
    {
      Sub(position, prevPosition)
    }
  }

  /** `new Vertex(pos, velocity, stationary)`: the previous position is set
      back by `velocity`, so that the derived velocity is the one given. */
  function NewVertex(pos: Vec, velocity: Vec, stationary: bool): (v: Vertex)
    ensures v.position == pos && v.pinned == stationary
    ensures v.Velocity() == velocity
  {
    Vertex(pos, Sub(pos, velocity), stationary)
  }

  /** A distance constraint between the vertices at indices `start` and
      `end`, with the rest length captured when it was created. */
  datatype Link = Link(start: nat, end: nat, originalLength: real, material: Material) {

    predicate InRange(vs: seq<Vertex>) {
      start < |vs| && end < |vs|
    }

    /** The vector from the end point to the start point. */
    function VertexDiffs(vs: seq<Vertex>): (d: Vec)
      requires InRange(vs)
      ensures Add(vs[end].position, d) == vs[start].position
    {
      Sub(vs[start].position, vs[end].position)
    }

    /** The distance between the endpoints: the length of VertexDiffs. */
    function CurrentLength(vs: seq<Vertex>, norm: Norm): (c: real)
      requires InRange(vs)
      ensures c == norm(VertexDiffs(vs))
      ensures IsNorm(norm) ==> c >= 0.0
    {
      Distance(vs[start].position, vs[end].position, norm)
    }

    /** How far the link is stretched beyond its rest length (negative when
        it is compressed). */
    function Stretch(vs: seq<Vertex>, norm: Norm): real
      requires InRange(vs)
    {
      CurrentLength(vs, norm) - originalLength
    }

    /** The point halfway between the two endpoints. */
    function Midpoint(vs: seq<Vertex>): (m: Vec)
      requires InRange(vs)
      ensures Sub(m, vs[start].position) == Sub(vs[end].position, m)
    {
      Vec((vs[start].position.x + vs[end].position.x) / 2.0,
          (vs[start].position.y + vs[end].position.y) / 2.0)
    }
  }

  /** `new Link(start, end, material)`: the rest length is the distance
      between the endpoints at the moment the link is made. */
  function NewLink(start: nat, startAt: Vec, end: nat, endAt: Vec, material: Material, norm: Norm): (l: Link)
    ensures l.start == start && l.end == end && l.material == material
    ensures IsNorm(norm) ==> l.originalLength >= 0.0
    ensures forall vs: seq<Vertex> :: l.InRange(vs) && vs[start].position == startAt && vs[end].position == endAt ==>
      l.Stretch(vs, norm) == 0.0
  {
    Link(start, end, Distance(startAt, endAt, norm), material)
  }

  /** Every link refers to existing vertices. */
  ghost predicate LinksInRange(vs: seq<Vertex>, ls: seq<Link>) {
    forall i :: 0 <= i < |ls| ==> ls[i].InRange(vs)
  }

  /** `List.RemoveAt`: drop element `i`, keeping the others in order. */
  function RemoveAt<T>(s: seq<T>, i: nat): (r: seq<T>)
    requires i < |s|
    ensures |r| == |s| - 1
    ensures forall j :: 0 <= j < |r| ==> r[j] == if j < i then s[j] else s[j + 1]
  {
    s[..i] + s[i + 1..]
  }

  /** Removing an element never introduces a new one. */
  lemma RemoveAtSubset<T>(s: seq<T>, i: nat)
    requires i < |s|
    ensures forall e :: e in RemoveAt(s, i) ==> e in s
  {
    forall e | e in RemoveAt(s, i) ensures e in s {
      var j :| 0 <= j < |RemoveAt(s, i)| && RemoveAt(s, i)[j] == e;
      if j < i { assert s[j] == e; } else { assert s[j + 1] == e; }
    }
  }

  // ---------------------------------------------------------------------
  // The grid the cloth is built as. Cell (x, y) of a grid `height` cells
  // tall has flat index k = x * height + y (column-major order).

  function GridPosition(start: Vec, spacing: int, x: int, y: int): Vec {
    Vec(start.x + (x * spacing) as real, start.y + (y * spacing) as real)
  }

  /** The vertex made for cell (x, y): at rest, pinned exactly in the top row. */
  function GridVertex(start: Vec, spacing: int, x: int, y: int): Vertex {
    var p := GridPosition(start, spacing, x, y);
    Vertex(p, p, y == 0)
  }

  /** Position of the cell with flat index k. */
  function CellPosition(k: nat, height: int, spacing: int, start: Vec): Vec
    requires height > 0
  {
    GridPosition(start, spacing, k / height, k % height)
  }

  /** The vertices of the first n cells. */
  function GridVertices(n: nat, height: int, spacing: int, start: Vec): (r: seq<Vertex>)
    requires height > 0
    ensures |r| == n
    ensures forall k :: 0 <= k < n ==>
      r[k].pinned == (k % height == 0) && r[k].Velocity() == Vec(0.0, 0.0)
  {
    seq(n, k requires 0 <= k < n => GridVertex(start, spacing, k / height, k % height))
  }

  /** The links appended while cell k is built: first the one from the
      vertex above (when the cell is not in the top row), then the one from
      the vertex to the left (when the cell is not in the first column). */
  function CellLinks(k: nat, height: int, spacing: int, start: Vec, norm: Norm): seq<Link>
    requires height > 0
  {
    var here := CellPosition(k, height, spacing, start);
    (if k % height > 0
     then [NewLink(k - 1, CellPosition(k - 1, height, spacing, start), k, here, Fabric, norm)]
     else [])
    +
    (if k >= height
     then [NewLink(k - height, CellPosition(k - height, height, spacing, start), k, here, Fabric, norm)]
     else [])
  }

  /** The links of the first n cells, in the order they are appended. */
  function GridLinks(n: nat, height: int, spacing: int, start: Vec, norm: Norm): seq<Link>
    requires height > 0
  {
    if n == 0 then [] else GridLinks(n - 1, height, spacing, start, norm) + CellLinks(n - 1, height, spacing, start, norm)
  }

  lemma MulMono(a: int, b: int, h: int)
    requires a <= b && h >= 0
    ensures a * h <= b * h
  {
    assert b * h - a * h == (b - a) * h;
  }

  lemma MulSucc(x: int, h: int)
    ensures (x + 1) * h == x * h + h
  {
  }

  /** Flat index x * height + y names cell (x, y). */
  lemma CellOf(x: int, y: int, height: int)
    requires 0 <= x && 0 <= y < height
    ensures (x * height + y) / height == x && (x * height + y) % height == y
    ensures x * height + y >= height <==> x > 0
  {
    var k := x * height + y;
    if x > 0 {
      MulMono(1, x, height);
    }
    var q, r := k / height, k % height;
    assert k == q * height + r && 0 <= r < height;
    QuotientUnique(q, r, x, y, height);
  }

  /** Division with remainder has one answer. */
  lemma QuotientUnique(q: int, r: int, x: int, y: int, h: int)
    requires 0 <= r < h && 0 <= y < h && q * h + r == x * h + y
    ensures q == x
  {
    if q > x {
      MulMono(x + 1, q, h);
      MulSucc(x, h);
      assert false;
    } else if q < x {
      MulMono(q + 1, x, h);
      MulSucc(q, h);
      assert false;
    }
  }

  /** Cell (x, y) of a width x height grid lies within it. */
  lemma CellInGrid(width: int, height: int, x: int, y: int)
    requires 0 <= x < width && 0 <= y < height
    ensures 0 <= x * height + y < width * height
  {
    MulMono(0, x, height);
    MulMono(x + 1, width, height);
    MulSucc(x, height);
  }

  /** What building cell (x, y) appends to the vertex and link lists. */
  lemma BuildCell(x: int, y: int, k: nat, height: int, spacing: int, start: Vec, norm: Norm)
    requires 0 <= x && 0 <= y < height && k == x * height + y
    ensures
      && GridVertices(k + 1, height, spacing, start)
         == GridVertices(k, height, spacing, start) + [GridVertex(start, spacing, x, y)]
      && (y > 0 ==> k >= 1)
      && (x > 0 ==> k >= height)
      && GridLinks(k + 1, height, spacing, start, norm)
         == GridLinks(k, height, spacing, start, norm)
            + (if y > 0
               then [NewLink(k - 1, GridVertices(k, height, spacing, start)[k - 1].position,
                             k, GridPosition(start, spacing, x, y), Fabric, norm)]
               else [])
            + (if x > 0
               then [NewLink(k - height, GridVertices(k, height, spacing, start)[k - height].position,
                             k, GridPosition(start, spacing, x, y), Fabric, norm)]
               else [])
  {
    CellOf(x, y, height);
    var vs := GridVertices(k, height, spacing, start);
    assert GridVertices(k + 1, height, spacing, start) == vs + [GridVertex(start, spacing, x, y)];
    assert CellPosition(k, height, spacing, start) == GridPosition(start, spacing, x, y);
    assert y > 0 ==> vs[k - 1].position == CellPosition(k - 1, height, spacing, start);
    assert x > 0 ==> vs[k - height].position == CellPosition(k - height, height, spacing, start);
    assert GridLinks(k + 1, height, spacing, start, norm)
        == GridLinks(k, height, spacing, start, norm) + CellLinks(k, height, spacing, start, norm);
  }

  class Cloth {
    var vertices: seq<Vertex>
    var links: seq<Link>

    ghost predicate Valid()
      reads this
    {
      LinksInRange(vertices, links)
    }

    /** Builds a `width` x `height` grid of vertices `spacing` apart from
        `start`, linking every vertex to the one above and the one to its
        left, and pinning the top row. */
    constructor (width: int, height: int, spacing: int, start: Vec, norm: Norm)
      ensures Valid()
      ensures width <= 0 || height <= 0 ==> vertices == [] && links == []
      ensures width > 0 && height > 0 ==>
        && vertices == GridVertices(width * height, height, spacing, start)
        && links == GridLinks(width * height, height, spacing, start, norm)
    {
      vertices := [];
      links := [];
      new;
      var x := 0;
      ghost var k: nat := 0;
      while x < width
        invariant 0 <= x && (x <= width || x == 0)
        invariant height <= 0 ==> vertices == [] && links == []
        invariant height > 0 ==> k == x * height
        invariant height > 0 ==>
          && vertices == GridVertices(k, height, spacing, start)
          && links == GridLinks(k, height, spacing, start, norm)
      {
        var y := 0;
        while y < height
          invariant 0 <= y && (y <= height || y == 0)
          invariant height <= 0 ==> vertices == [] && links == []
          invariant height > 0 ==> k == x * height + y
          invariant height > 0 ==>
            && vertices == GridVertices(k, height, spacing, start)
            && links == GridLinks(k, height, spacing, start, norm)
        {
          AddGridVertex(x, y, k, height, spacing, start, norm);
          k := k + 1;
          y := y + 1;
        }
        if height > 0 {
          MulSucc(x, height);
        }
        x := x + 1;
      }
      if width > 0 && height > 0 {
        assert k == width * height;
        GridLinksShape(width * height, height, spacing, start, norm);
      }
    }

    /** One step of the constructor's nested loop: appends the vertex at
        column `x`, row `y` together with its links to the vertex above and
        the vertex on the left. */
    method AddGridVertex(x: int, y: int, ghost k: nat, height: int, spacing: int, start: Vec, norm: Norm)
      requires 0 <= x && 0 <= y < height && k == x * height + y
      requires vertices == GridVertices(k, height, spacing, start)
      requires links == GridLinks(k, height, spacing, start, norm)
      modifies this
      ensures vertices == GridVertices(k + 1, height, spacing, start)
      ensures links == GridLinks(k + 1, height, spacing, start, norm)
    {
      BuildCell(x, y, k, height, spacing, start, norm);
      var vertex := NewVertex(Vec(start.x + (x * spacing) as real, start.y + (y * spacing) as real), Vec(0.0, 0.0), false);
      assert |vertices| == k && vertex.position == GridPosition(start, spacing, x, y);

      ghost var before := links;
      ghost var here := GridPosition(start, spacing, x, y);

      // Link to the vertex above
      if y > 0 {
        var top := vertices[|vertices| - 1];
        links := links + [NewLink(|vertices| - 1, top.position, |vertices|, vertex.position, Fabric, norm)];
      }

      assert links == before
        + if y > 0 then [NewLink(k - 1, GridVertices(k, height, spacing, start)[k - 1].position, k, here, Fabric, norm)] else [];
      ghost var afterTop := links;

      // Link to the vertex on the left
      if x > 0 {
        var left := vertices[|vertices| - height];
        links := links + [NewLink(|vertices| - height, left.position, |vertices|, vertex.position, Fabric, norm)];
      }

      assert links == afterTop
        + if x > 0 then [NewLink(k - height, GridVertices(k, height, spacing, start)[k - height].position, k, here, Fabric, norm)] else [];

      // Pin the top row
      if y == 0 {
        vertex := vertex.(pinned := true);
      }

      assert vertex == GridVertex(start, spacing, x, y);
      vertices := vertices + [vertex];
    }

    /** `Cloth.RemoveLink(index)`: drops one link, keeping the order of the
        others; the vertices are untouched. */
    method RemoveLink(index: int)
      requires Valid()
      requires 0 <= index < |links|
      modifies this
      ensures Valid()
      ensures links == RemoveAt(old(links), index)
      ensures vertices == old(vertices)
    {
      links := links[..index] + links[index + 1..];
    }
  }

  // ---------------------------------------------------------------------
  // What the construction yields.

  /** The vertex of cell (x, y) is stored at index x * height + y, sits at
      start + (x * spacing, y * spacing), has no initial velocity, and is
      pinned exactly when y is 0. */
  lemma GridVertexAt(width: int, height: int, spacing: int, start: Vec, x: int, y: int)
    requires 0 <= x < width && 0 <= y < height
    ensures 0 <= x * height + y < width * height
    ensures GridVertices(width * height, height, spacing, start)[x * height + y]
         == Vertex(GridPosition(start, spacing, x, y), GridPosition(start, spacing, x, y), y == 0)
  {
    CellInGrid(width, height, x, y);
    CellOf(x, y, height);
  }

  /** Every link of the grid is a Fabric link between a vertex and the one
      above it or the one to its left (never across a column boundary),
      whose rest length is the distance between its endpoints in the grid:
      at construction every link is at rest. */
  lemma {:induction false} GridLinksShape(n: nat, height: int, spacing: int, start: Vec, norm: Norm)
    requires height > 0
    ensures LinksInRange(GridVertices(n, height, spacing, start), GridLinks(n, height, spacing, start, norm))
    ensures forall i :: 0 <= i < |GridLinks(n, height, spacing, start, norm)| ==>
      var l := GridLinks(n, height, spacing, start, norm)[i];
      && l.material == Fabric
      && l.start < l.end < n
      && ((l.start + 1 == l.end && l.end % height != 0) || l.start + height == l.end)
      && l.originalLength == l.CurrentLength(GridVertices(n, height, spacing, start), norm)
  {
    if n > 0 {
      GridLinksShape(n - 1, height, spacing, start, norm);
      var vs := GridVertices(n, height, spacing, start);
      var prev := GridLinks(n - 1, height, spacing, start, norm);
      var cell := CellLinks(n - 1, height, spacing, start, norm);
      var all := GridLinks(n, height, spacing, start, norm);
      assert all == prev + cell;
      forall i | 0 <= i < |all|
        ensures all[i].InRange(vs)
        ensures all[i].material == Fabric
        ensures all[i].start < all[i].end < n
        ensures (all[i].start + 1 == all[i].end && all[i].end % height != 0) || all[i].start + height == all[i].end
        ensures all[i].originalLength == all[i].CurrentLength(vs, norm)
      {
        var l := all[i];
        if i < |prev| {
          assert l == prev[i];
          assert vs[l.start] == GridVertices(n - 1, height, spacing, start)[l.start];
          assert vs[l.end] == GridVertices(n - 1, height, spacing, start)[l.end];
        } else {
          assert l == cell[i - |prev|];
        }
      }
    }
  }

  /** Links of the grid appear in the order of the cell they were made for;
      of the two links made for one cell, the one from the vertex above comes
      before the one from the vertex to the left. */
  lemma {:induction false} GridLinksOrder(n: nat, height: int, spacing: int, start: Vec, norm: Norm)
    requires height > 0
    ensures forall i, j :: 0 <= i < j < |GridLinks(n, height, spacing, start, norm)| ==>
      var a := GridLinks(n, height, spacing, start, norm)[i];
      var b := GridLinks(n, height, spacing, start, norm)[j];
      a.end < b.end || (a.end == b.end && a.start + 1 == a.end && b.start + height == b.end)
  {
    if n > 0 {
      var prev := GridLinks(n - 1, height, spacing, start, norm);
      var cell := CellLinks(n - 1, height, spacing, start, norm);
      var all := GridLinks(n, height, spacing, start, norm);
      assert all == prev + cell;
      forall i, j | 0 <= i < j < |all|
        ensures all[i].end < all[j].end
             || (all[i].end == all[j].end && all[i].start + 1 == all[i].end && all[j].start + height == all[j].end)
      {
        if j < |prev| {
          GridLinksOrder(n - 1, height, spacing, start, norm);
          assert all[i] == prev[i] && all[j] == prev[j];
        } else if i < |prev| {
          GridLinksShape(n - 1, height, spacing, start, norm);
          assert all[i] == prev[i] && all[j] == cell[j - |prev|];
          assert prev[i].end < n - 1;
        } else {
          assert all[i] == cell[i - |prev|] && all[j] == cell[j - |prev|];
        }
      }
    }
  }

  /** Every pair of vertically or horizontally adjacent vertices is joined
      by a link. */
  lemma {:induction false} GridLinksComplete(n: nat, height: int, spacing: int, start: Vec, norm: Norm, k: nat)
    requires height > 0 && k < n
    ensures k % height != 0 ==>
      NewLink(k - 1, CellPosition(k - 1, height, spacing, start), k, CellPosition(k, height, spacing, start), Fabric, norm)
        in GridLinks(n, height, spacing, start, norm)
    ensures k >= height ==>
      NewLink(k - height, CellPosition(k - height, height, spacing, start), k, CellPosition(k, height, spacing, start), Fabric, norm)
        in GridLinks(n, height, spacing, start, norm)
  {
    if k < n - 1 {
      GridLinksComplete(n - 1, height, spacing, start, norm, k);
    }
  }

  /** The count of links made for the first x * height + y cells. */
  function LinksBeforeCell(x: nat, y: nat, height: int): int {
    x * (height - 1) + (if y > 0 then y - 1 else 0) + (if x > 0 then (x - 1) * height + y else 0)
  }

  lemma {:induction false} GridLinksCountAt(x: nat, y: nat, k: nat, height: int, spacing: int, start: Vec, norm: Norm)
    requires height > 0 && y <= height && k == x * height + y
    ensures |GridLinks(k, height, spacing, start, norm)| == LinksBeforeCell(x, y, height)
    decreases x, y
  {
    if y > 0 {
      GridLinksCountAt(x, y - 1, k - 1, height, spacing, start, norm);
      CellOf(x, y - 1, height);
      assert |CellLinks(k - 1, height, spacing, start, norm)| == (if y > 1 then 1 else 0) + (if x > 0 then 1 else 0);
    } else if x > 0 {
      MulSucc(x - 1, height);
      GridLinksCountAt(x - 1, height, k, height, spacing, start, norm);
      MulSucc(x - 1, height - 1);
      if x > 1 {
        MulSucc(x - 2, height);
      }
    }
  }

  /** A width x height grid has width * (height - 1) vertical and
      (width - 1) * height horizontal links. */
  lemma GridLinksCount(width: int, height: int, spacing: int, start: Vec, norm: Norm)
    requires width > 0 && height > 0
    ensures |GridLinks(width * height, height, spacing, start, norm)| == width * (height - 1) + (width - 1) * height
  {
    GridLinksCountAt(width, 0, width * height, height, spacing, start, norm);
  }
}
