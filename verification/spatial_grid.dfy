/** A uniform grid over the ground plane (x, z) for neighbourhood queries.
    Each cell keeps a list of entity ids in insertion order; a separate map
    remembers where each entity was put. `distanceTo` (a square root) is a
    parameter of the circle query. */
module SpatialGrid {
  import opened JsCollections

  type Id = string

  /** The cell edge; the default is 10. */
  type CellSize = r: real | r > 0.0 witness 10.0

  datatype Vec = Vec(x: real, y: real, z: real)

  datatype Key = Key(x: int, z: int)

  datatype Grid = Grid(cellSize: CellSize, cells: map<Key, seq<Id>>, positions: map<Id, Vec>)

  function Empty(cellSize: CellSize): (g: Grid)
    ensures Consistent(g)
  {
    Grid(cellSize, map[], map[])
  }

  /** `getCellKey`: x and z divided by the cell size and floored; y plays
      no part. */
  function KeyOf(p: Vec, size: CellSize): Key
  {
    Key((p.x / size).Floor, (p.z / size).Floor)
  }

  /** Positions differing only in height share a cell. */
  lemma HeightIgnored(p: Vec, h: real, size: CellSize)
    ensures KeyOf(p.(y := h), size) == KeyOf(p, size)
  {
  }

  /** Floor of a quotient by a positive size is monotone. */
  lemma FloorMono(a: real, b: real, size: CellSize)
    requires a <= b
    ensures (a / size).Floor <= (b / size).Floor
  {
    DivMono(a, b, size);
  }

  lemma DivMono(a: real, b: real, size: CellSize)
    requires a <= b
    ensures a / size <= b / size
  {
    var qa, qb := a / size, b / size;
    assert qa * size == a && qb * size == b;
  }

  /** `s` without its first occurrence of `x` (`indexOf` then `splice`). */
  function RemoveFirst(s: seq<Id>, x: Id): (r: seq<Id>)
    ensures x !in s ==> r == s
    ensures x in s ==> |r| == |s| - 1
    ensures multiset(r) == multiset(s) - multiset{x}
  {
    if |s| == 0 then []
    else if s[0] == x then
      assert s == [s[0]] + s[1..];
      s[1..]
    else
      assert s == [s[0]] + s[1..];
      [s[0]] + RemoveFirst(s[1..], x)
  }

  /** `splice(indexOf(x), 1)` cuts out exactly the first occurrence. */
  lemma {:induction false} RemoveFirstSplice(s: seq<Id>, x: Id, i: int)
    requires 0 <= i < |s| && s[i] == x && x !in s[..i]
    ensures RemoveFirst(s, x) == s[..i] + s[i + 1..]
    decreases i
  {
    if i > 0 {
      assert s[0] in s[..i];
      assert s[..i] == [s[0]] + s[1..][..i - 1];
      assert s[i + 1..] == s[1..][i..];
      RemoveFirstSplice(s[1..], x, i - 1);
    }
  }

  /** `insert(id, p)`: remember the position and append the id to its cell. */
  function Insert(g: Grid, id: Id, p: Vec): (r: Grid)
    ensures r.cellSize == g.cellSize && r.positions == g.positions[id := p]
    ensures var k := KeyOf(p, g.cellSize);
      k in r.cells && r.cells[k] == (if k in g.cells then g.cells[k] else []) + [id]
    ensures forall k :: k != KeyOf(p, g.cellSize) ==> (k in r.cells <==> k in g.cells) && (k in r.cells ==> r.cells[k] == g.cells[k])
  {
    var k := KeyOf(p, g.cellSize);
    g.(positions := g.positions[id := p], cells := g.cells[k := (if k in g.cells then g.cells[k] else []) + [id]])
  }

  /** `remove(id)`: one occurrence leaves the cell of the remembered
      position, an emptied cell is dropped, and the id is forgotten.
      Unknown ids are ignored. */
  function Remove(g: Grid, id: Id): (r: Grid)
    ensures id !in g.positions ==> r == g
    ensures r.cellSize == g.cellSize && r.positions == g.positions - {id}
    ensures id in g.positions ==> var k := KeyOf(g.positions[id], g.cellSize);
      && (forall j :: j != k ==> (j in r.cells <==> j in g.cells) && (j in r.cells ==> r.cells[j] == g.cells[j]))
      && (k in r.cells <==> k in g.cells && RemoveFirst(g.cells[k], id) != [])
      && (k in r.cells ==> r.cells[k] == RemoveFirst(g.cells[k], id))
  {
    if id !in g.positions then g
    else
      var k := KeyOf(g.positions[id], g.cellSize);
      var cells :=
        if k !in g.cells then g.cells
        else
          var rest := RemoveFirst(g.cells[k], id);
          if |rest| == 0 then g.cells - {k} else g.cells[k := rest];
      g.(cells := cells, positions := g.positions - {id})
  }

  /** `update(id, p)`: remove, then insert. */
  function Update(g: Grid, id: Id, p: Vec): (r: Grid)
    ensures r.positions == g.positions[id := p]
  {
    Insert(Remove(g, id), id, p)
  }

  /** Every remembered entity is listed once, in the cell of its position,
      and nowhere else; no cell is empty. */
  ghost predicate Consistent(g: Grid)
  {
    (forall id :: id in g.positions ==>
       KeyOf(g.positions[id], g.cellSize) in g.cells && id in g.cells[KeyOf(g.positions[id], g.cellSize)])
    && (forall k, id :: k in g.cells && id in g.cells[k] ==> id in g.positions && KeyOf(g.positions[id], g.cellSize) == k)
    && (forall k :: k in g.cells ==> g.cells[k] != [] && NoDup(g.cells[k]))
  }

  lemma NoDupAppend(s: seq<Id>, x: Id)
    requires NoDup(s) && x !in s
    ensures NoDup(s + [x])
  {
    forall i, j | 0 <= i < j < |s + [x]| ensures (s + [x])[i] != (s + [x])[j] {
      if j == |s| {
        assert (s + [x])[i] == s[i];
      }
    }
  }

  lemma {:induction false} RemoveFirstNoDup(s: seq<Id>, x: Id)
    requires NoDup(s)
    ensures RemoveFirst(s, x) == JsCollections.Remove(s, x)
  {
    if |s| > 0 {
      assert NoDup(s[1..]) by {
        forall i, j | 0 <= i < j < |s[1..]| ensures s[1..][i] != s[1..][j] {
          assert s[1..][i] == s[i + 1] && s[1..][j] == s[j + 1];
        }
      }
      RemoveFirstNoDup(s[1..], x);
      assert s == [s[0]] + s[1..];
      if s[0] == x {
        assert x !in s[1..] by {
          forall i | 0 <= i < |s[1..]| ensures s[1..][i] != x {
            assert s[1..][i] == s[i + 1];
          }
        }
      }
    }
  }

  /** Inserting an entity the grid does not know keeps it consistent. */
  lemma InsertFreshKeeps(g: Grid, id: Id, p: Vec)
    requires Consistent(g) && id !in g.positions
    ensures Consistent(Insert(g, id, p))
  {
    var r := Insert(g, id, p);
    var k := KeyOf(p, g.cellSize);
    if k in g.cells {
      NoDupAppend(g.cells[k], id);
    }
    forall j, x | j in r.cells && x in r.cells[j] ensures x in r.positions && KeyOf(r.positions[x], r.cellSize) == j {
      if x != id {
        assert x in g.cells[j];
      }
    }
  }

  /** Removing keeps the grid consistent, and the id is gone from every cell. */
  lemma RemoveKeeps(g: Grid, id: Id)
    requires Consistent(g)
    ensures var r := Remove(g, id); Consistent(r) && forall k :: k in r.cells ==> id !in r.cells[k]
  {
    if id in g.positions {
      RemoveKnownKeeps(g, id);
    } else {
      forall j | j in g.cells ensures id !in g.cells[j] {
      }
    }
  }

  /** After removing a known id, every cell lists a subset of what it
      listed before, minus the id. */
  lemma RemovedCells(g: Grid, id: Id)
    requires Consistent(g) && id in g.positions
    ensures var r := Remove(g, id);
      forall j, x :: j in r.cells && x in r.cells[j] ==> j in g.cells && x in g.cells[j] && x != id
    ensures var r := Remove(g, id); forall j :: j in r.cells ==> r.cells[j] != [] && NoDup(r.cells[j])
  {
    var k := KeyOf(g.positions[id], g.cellSize);
    RemoveFirstNoDup(g.cells[k], id);
  }

  lemma RemoveKnownKeeps(g: Grid, id: Id)
    requires Consistent(g) && id in g.positions
    ensures var r := Remove(g, id); Consistent(r) && forall k :: k in r.cells ==> id !in r.cells[k]
  {
    RemovedCells(g, id);
    RemovedPositions(g, id);
  }

  lemma RemovedPositions(g: Grid, id: Id)
    requires Consistent(g) && id in g.positions
    ensures var r := Remove(g, id);
      forall x :: x in r.positions ==> KeyOf(r.positions[x], r.cellSize) in r.cells && x in r.cells[KeyOf(r.positions[x], r.cellSize)]
  {
    var r := Remove(g, id);
    var k := KeyOf(g.positions[id], g.cellSize);
    RemoveFirstNoDup(g.cells[k], id);
    forall x | x in r.positions ensures KeyOf(r.positions[x], r.cellSize) in r.cells && x in r.cells[KeyOf(r.positions[x], r.cellSize)] {
      var j := KeyOf(g.positions[x], g.cellSize);
      assert x in g.cells[j] && x != id;
      if j == k {
        assert x in JsCollections.Remove(g.cells[k], id);
      }
    }
  }

  /** `update` keeps the grid consistent, whether or not the id was known. */
  lemma UpdateKeeps(g: Grid, id: Id, p: Vec)
    requires Consistent(g)
    ensures Consistent(Update(g, id, p))
  {
    RemoveKeeps(g, id);
    InsertFreshKeeps(Remove(g, id), id, p);
  }

  /** Inserting a known entity at a position in another cell, without
      removing it first, leaves the id listed in its old cell too. */
  lemma ReinsertLeavesStale(g: Grid, id: Id, p: Vec)
    requires Consistent(g) && id in g.positions
    requires KeyOf(p, g.cellSize) != KeyOf(g.positions[id], g.cellSize)
    ensures var r := Insert(g, id, p); var old_ := KeyOf(g.positions[id], g.cellSize);
      old_ in r.cells && id in r.cells[old_] && KeyOf(r.positions[id], r.cellSize) != old_
    ensures !Consistent(Insert(g, id, p))
  {
  }

  /** `cell` filtered by `keep`, in order. */
  function Select(cell: seq<Id>, keep: Id -> bool): (r: seq<Id>)
    ensures forall id :: id in r <==> id in cell && keep(id)
  {
    if |cell| == 0 then []
    else (if keep(cell[0]) then [cell[0]] else []) + Select(cell[1..], keep)
  }

  predicate InBox(k: Key, x0: int, x1: int, z0: int, z1: int)
  {
    x0 <= k.x <= x1 && z0 <= k.z <= z1
  }

  /** The cells `(x, z)` for `z` from `z` to `z1`, filtered. */
  function Column(g: Grid, x: int, z: int, z1: int, keep: Id -> bool): (r: seq<Id>)
    ensures forall id :: id in r ==> keep(id)
    decreases z1 - z
  {
    if z > z1 then []
    else
      var here := if Key(x, z) in g.cells then Select(g.cells[Key(x, z)], keep) else [];
      here + Column(g, x, z + 1, z1, keep)
  }

  /** The double loop of the queries: x outermost, then z. */
  function Scan(g: Grid, x: int, x1: int, z0: int, z1: int, keep: Id -> bool): (r: seq<Id>)
    ensures forall id :: id in r ==> keep(id)
    decreases x1 - x
  {
    if x > x1 then [] else Column(g, x, z0, z1, keep) + Scan(g, x + 1, x1, z0, z1, keep)
  }

  lemma {:induction false} ColumnMembers(g: Grid, x: int, z: int, z1: int, keep: Id -> bool, id: Id)
    decreases z1 - z
    ensures id in Column(g, x, z, z1, keep) <==> keep(id) && exists k :: k in g.cells && InBox(k, x, x, z, z1) && id in g.cells[k]
  {
    if z <= z1 {
      ColumnMembers(g, x, z + 1, z1, keep, id);
      if id in Column(g, x, z, z1, keep) && id !in Column(g, x, z + 1, z1, keep) {
        assert Key(x, z) in g.cells && id in g.cells[Key(x, z)];
      }
    }
  }

  /** An id is scanned exactly when it passes `keep` and some cell of the
      box lists it. */
  lemma {:induction false} ScanMembers(g: Grid, x: int, x1: int, z0: int, z1: int, keep: Id -> bool, id: Id)
    decreases x1 - x
    ensures id in Scan(g, x, x1, z0, z1, keep) <==> keep(id) && exists k :: k in g.cells && InBox(k, x, x1, z0, z1) && id in g.cells[k]
  {
    if x <= x1 {
      ScanMembers(g, x + 1, x1, z0, z1, keep, id);
      ColumnMembers(g, x, z0, z1, keep, id);
      if keep(id) && id !in Scan(g, x + 1, x1, z0, z1, keep) {
        if k :| k in g.cells && InBox(k, x, x1, z0, z1) && id in g.cells[k] {
          assert InBox(k, x, x, z0, z1);
        }
      }
    }
  }

  /** On a consistent grid an entity whose cell lies in the box is scanned
      when it passes `keep`. */
  lemma ScanFinds(g: Grid, x: int, x1: int, z0: int, z1: int, keep: Id -> bool, id: Id)
    requires Consistent(g) && id in g.positions && keep(id)
    requires InBox(KeyOf(g.positions[id], g.cellSize), x, x1, z0, z1)
    ensures id in Scan(g, x, x1, z0, z1, keep)
  {
    ScanMembers(g, x, x1, z0, z1, keep, id);
  }

  predicate InRect(p: Vec, lo: Vec, hi: Vec)
  {
    lo.x <= p.x <= hi.x && lo.z <= p.z <= hi.z
  }

  /** A position inside the bounds lies in a cell of the box the bounds'
      cells span. */
  lemma KeyInBox(p: Vec, size: CellSize, ax: real, bx: real, az: real, bz: real)
    requires ax <= p.x <= bx && az <= p.z <= bz
    ensures InBox(KeyOf(p, size), (ax / size).Floor, (bx / size).Floor, (az / size).Floor, (bz / size).Floor)
  {
    FloorMono(ax, p.x, size);
    FloorMono(p.x, bx, size);
    FloorMono(az, p.z, size);
    FloorMono(p.z, bz, size);
  }

  /** `queryRect(lo, hi)`. */
  function QueryRect(g: Grid, lo: Vec, hi: Vec): (r: seq<Id>)
    ensures forall id :: id in r ==> id in g.positions && InRect(g.positions[id], lo, hi)
  {
    var s := g.cellSize;
    Scan(g, (lo.x / s).Floor, (hi.x / s).Floor, (lo.z / s).Floor, (hi.z / s).Floor,
      id => id in g.positions && InRect(g.positions[id], lo, hi))
  }

  /** On a consistent grid `queryRect` finds exactly the entities inside
      the rectangle: the scanned cells cover it because floor is monotone. */
  lemma QueryRectExact(g: Grid, lo: Vec, hi: Vec, id: Id)
    requires Consistent(g)
    ensures id in QueryRect(g, lo, hi) <==> id in g.positions && InRect(g.positions[id], lo, hi)
  {
    var s := g.cellSize;
    var keep := id => id in g.positions && InRect(g.positions[id], lo, hi);
    if id in g.positions && InRect(g.positions[id], lo, hi) {
      ScanMembers(g, (lo.x / s).Floor, (hi.x / s).Floor, (lo.z / s).Floor, (hi.z / s).Floor, keep, id);
      KeyInBox(g.positions[id], s, lo.x, hi.x, lo.z, hi.z);
    }
  }

  /** `queryCircle(c, radius)`, with `dist` standing for `distanceTo`. */
  function QueryCircle(g: Grid, c: Vec, radius: real, dist: (Vec, Vec) -> real): (r: seq<Id>)
    ensures forall id :: id in r ==> id in g.positions && dist(g.positions[id], c) <= radius
  {
    var s := g.cellSize;
    Scan(g, ((c.x - radius) / s).Floor, ((c.x + radius) / s).Floor, ((c.z - radius) / s).Floor, ((c.z + radius) / s).Floor,
      id => id in g.positions && dist(g.positions[id], c) <= radius)
  }

  /** A distance is never shorter than the gap along x or along z. */
  ghost predicate BoundsAxes(dist: (Vec, Vec) -> real)
  {
    forall p, q :: dist(p, q) >= p.x - q.x && dist(p, q) >= q.x - p.x
      && dist(p, q) >= p.z - q.z && dist(p, q) >= q.z - p.z
  }

  /** A point within `radius` of the centre, by a distance bounding both
      axis gaps, lies in the square around the centre. */
  lemma WithinSquare(p: Vec, c: Vec, radius: real, dist: (Vec, Vec) -> real)
    requires BoundsAxes(dist) && dist(p, c) <= radius
    ensures c.x - radius <= p.x <= c.x + radius && c.z - radius <= p.z <= c.z + radius
  {
    assert dist(p, c) >= p.x - c.x && dist(p, c) >= c.x - p.x && dist(p, c) >= p.z - c.z && dist(p, c) >= c.z - p.z;
  }

  /** On a consistent grid `queryCircle` finds exactly the entities within
      `radius` of the centre. */
  /** An entity within `radius` and inside the square around the centre
      is found. */
  lemma CircleCovers(g: Grid, c: Vec, radius: real, dist: (Vec, Vec) -> real, id: Id)
    requires Consistent(g) && id in g.positions && dist(g.positions[id], c) <= radius
    requires c.x - radius <= g.positions[id].x <= c.x + radius && c.z - radius <= g.positions[id].z <= c.z + radius
    ensures id in QueryCircle(g, c, radius, dist)
  {
    var s := g.cellSize;
    var keep := id => id in g.positions && dist(g.positions[id], c) <= radius;
    KeyInBox(g.positions[id], s, c.x - radius, c.x + radius, c.z - radius, c.z + radius);
    ScanFinds(g, ((c.x - radius) / s).Floor, ((c.x + radius) / s).Floor, ((c.z - radius) / s).Floor, ((c.z + radius) / s).Floor, keep, id);
  }

  lemma QueryCircleExact(g: Grid, c: Vec, radius: real, dist: (Vec, Vec) -> real, id: Id)
    requires Consistent(g) && BoundsAxes(dist)
    ensures id in QueryCircle(g, c, radius, dist) <==> id in g.positions && dist(g.positions[id], c) <= radius
  {
    if id in g.positions && dist(g.positions[id], c) <= radius {
      WithinSquare(g.positions[id], c, radius, dist);
      CircleCovers(g, c, radius, dist, id);
    }
  }

  /** `getAllEntities`: the remembered ids. On a consistent grid they are
      exactly the ids some cell lists. */
  function AllEntities(g: Grid): (r: set<Id>)
    ensures Consistent(g) ==> forall id :: id in r <==> exists k :: k in g.cells && id in g.cells[k]
  {
    g.positions.Keys
  }
}
