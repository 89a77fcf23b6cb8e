/** Area-of-interest management: entities and players are hashed into cubic
    grid cells, and each player is interested in the entities of the 27
    cells around its own. The TypeScript manager and its JavaScript twin
    have the same logic, so one model covers both. Cell keys are the cell
    coordinates themselves: the `"cx,cy,cz"` text is written and read back
    with whole numbers only, so the text round trip is exact. */
module Interest {
  import Protocol

  type Entity = int

  /** The grid's cell edge; the default is 1000. */
  type CellSize = r: real | r > 0.0 witness 1000.0

  datatype Pos = Pos(x: real, y: real, z: real)

  datatype Cell = Cell(x: int, y: int, z: int)

  datatype Tracked = Tracked(pos: Pos, data: Protocol.JsValue)

  datatype Metrics = Metrics(totalEntities: nat, entitiesSent: nat, reductionRatio: real, updates: nat)

  datatype Manager = Manager(
    cellSize: CellSize,
    grid: map<Cell, set<Entity>>,
    players: map<string, Pos>,
    entities: map<Entity, Tracked>,
    interests: map<string, set<Entity>>,
    metrics: Metrics)

  const NoMetrics := Metrics(0, 0, 0.0, 0)

  function Empty(cellSize: CellSize): (r: Manager)
    ensures Inv(r)
  {
    Manager(cellSize, map[], map[], map[], map[], NoMetrics)
  }

  /** `getCellKey`: each coordinate divided by the cell size, floored. */
  function CellOf(p: Pos, size: CellSize): Cell
  {
    Cell((p.x / size).Floor, (p.y / size).Floor, (p.z / size).Floor)
  }

  /** A position lies inside its cell: `size * c <= coordinate < size * (c + 1)`
      on every axis. */
  lemma CellOfBounds(p: Pos, size: CellSize)
    ensures var c := CellOf(p, size);
      && (c.x as real) * size <= p.x < (c.x as real + 1.0) * size
      && (c.y as real) * size <= p.y < (c.y as real + 1.0) * size
      && (c.z as real) * size <= p.z < (c.z as real + 1.0) * size
  {
    var c := CellOf(p, size);
    FloorBounds(p.x, size, c.x);
    FloorBounds(p.y, size, c.y);
    FloorBounds(p.z, size, c.z);
  }

  lemma FloorBounds(v: real, size: CellSize, k: int)
    requires k == (v / size).Floor
    ensures (k as real) * size <= v < (k as real + 1.0) * size
  {
    var q := v / size;
    QuotientBounds(v, size, q, k as real);
  }

  lemma QuotientBounds(v: real, size: real, q: real, lo: real)
    requires size > 0.0 && q * size == v && lo <= q < lo + 1.0
    ensures lo * size <= v < (lo + 1.0) * size
  {
    ScaleMono(lo, q, size);
    ScaleStrict(q, lo + 1.0, size);
    calc {
      v;
    ==
      q * size;
    <
      (lo + 1.0) * size;
    }
  }

  lemma ScaleMono(a: real, b: real, s: real)
    requires a <= b && s > 0.0
    ensures a * s <= b * s
  {
  }

  lemma ScaleStrict(a: real, b: real, s: real)
    requires a < b && s > 0.0
    ensures a * s < b * s
  {
  }

  /** Cells at most one step apart on every axis. */
  predicate Near(a: Cell, b: Cell)
  {
    -1 <= a.x - b.x <= 1 && -1 <= a.y - b.y <= 1 && -1 <= a.z - b.z <= 1
  }

  /** The `k`-th of the 27 cells around `c`: x offset outermost, z
      innermost, each running -1, 0, 1. */
  function NeighborAt(c: Cell, k: int): Cell
  {
    Cell(c.x + k / 9 - 1, c.y + (k / 3) % 3 - 1, c.z + k % 3 - 1)
  }

  function Around(c: Cell, k: nat): seq<Cell>
    requires k <= 27
    decreases 27 - k
  {
    if k == 27 then [] else [NeighborAt(c, k)] + Around(c, k + 1)
  }

  /** `getNeighborCells`: the 27 cells around `c`, `c` included. */
  function NeighborCells(c: Cell): seq<Cell>
  {
    Around(c, 0)
  }

  lemma {:induction false} AroundMembers(c: Cell, k: nat, d: Cell)
    requires k <= 27
    decreases 27 - k
    ensures |Around(c, k)| == 27 - k
    ensures d in Around(c, k) <==> exists j :: k <= j < 27 && d == NeighborAt(c, j)
  {
    if k < 27 {
      AroundMembers(c, k + 1, d);
    }
  }

  /** The 27 listed cells are exactly the near ones. */
  lemma NeighborCellsExact(c: Cell)
    ensures |NeighborCells(c)| == 27
    ensures forall d :: d in NeighborCells(c) <==> Near(d, c)
  {
    forall d ensures d in NeighborCells(c) <==> Near(d, c) {
      AroundMembers(c, 0, d);
      if Near(d, c) {
        NearIsListed(c, d);
      }
      if d in NeighborCells(c) {
        var j :| 0 <= j < 27 && d == NeighborAt(c, j);
        ListedIsNear(c, j);
      }
    }
    AroundMembers(c, 0, c);
  }

  lemma ListedIsNear(c: Cell, j: int)
    requires 0 <= j < 27
    ensures Near(NeighborAt(c, j), c)
  {
    assert 0 <= j / 9 < 3 && 0 <= (j / 3) % 3 < 3 && 0 <= j % 3 < 3;
  }

  lemma NearIsListed(c: Cell, d: Cell)
    requires Near(d, c)
    ensures exists j :: 0 <= j < 27 && d == NeighborAt(c, j)
  {
    var a, b, e := d.x - c.x + 1, d.y - c.y + 1, d.z - c.z + 1;
    var j := a * 9 + b * 3 + e;
    assert j / 9 == a && j % 3 == e && (j / 3) % 3 == b;
    assert d == NeighborAt(c, j);
  }

  lemma NearSymmetric(a: Cell, b: Cell)
    ensures Near(a, b) <==> Near(b, a)
  {
  }

  function EntityCell(m: Manager, e: Entity): Cell
    requires e in m.entities
  {
    CellOf(m.entities[e].pos, m.cellSize)
  }

  function PlayerCell(m: Manager, p: string): Cell
    requires p in m.players
  {
    CellOf(m.players[p], m.cellSize)
  }

  /** Every tracked entity sits in the cell of its position and nowhere
      else, and no cell is empty. */
  ghost predicate GridInv(m: Manager)
  {
    (forall e :: e in m.entities ==> EntityCell(m, e) in m.grid && e in m.grid[EntityCell(m, e)])
    && (forall c :: c in m.grid ==> m.grid[c] != {})
    && (forall c, e :: c in m.grid && e in m.grid[c] ==> e in m.entities && EntityCell(m, e) == c)
  }

  /** The tracked entities a player at cell `pc` should see. */
  function Expected(m: Manager, pc: Cell): set<Entity>
  {
    set e | e in m.entities && Near(EntityCell(m, e), pc)
  }

  /** Every player with a position is interested in exactly the tracked
      entities of its 27-neighbourhood; only such players have interests. */
  ghost predicate InterestInv(m: Manager)
  {
    (forall p :: p in m.interests ==> p in m.players)
    && (forall p :: p in m.players ==> p in m.interests && m.interests[p] == Expected(m, PlayerCell(m, p)))
  }

  ghost predicate Inv(m: Manager)
  {
    GridInv(m) && InterestInv(m)
  }

  /** The union of the grid's sets for the given cells. */
  function Gather(grid: map<Cell, set<Entity>>, cells: seq<Cell>): set<Entity>
  {
    if |cells| == 0 then {}
    else (if cells[0] in grid then grid[cells[0]] else {}) + Gather(grid, cells[1..])
  }

  /** An entity is gathered exactly when one of the listed cells holds it. */
  lemma {:induction false} GatherMembers(grid: map<Cell, set<Entity>>, cells: seq<Cell>, e: Entity)
    ensures e in Gather(grid, cells) <==> exists c :: c in cells && c in grid && e in grid[c]
  {
    if |cells| > 0 {
      GatherMembers(grid, cells[1..], e);
      assert forall c :: c in cells <==> c == cells[0] || c in cells[1..];
    }
  }

  /** `updatePlayerInterest`: gather the 27 cells around the player. */
  function RecomputeInterest(m: Manager, p: string): (r: Manager)
    ensures r.cellSize == m.cellSize && r.grid == m.grid && r.players == m.players && r.entities == m.entities
    ensures p !in m.players ==> r == m
  {
    if p !in m.players then m
    else m.(interests := m.interests[p := Gather(m.grid, NeighborCells(PlayerCell(m, p)))])
  }

  /** Under the grid invariant the gathered set is the expected one. */
  lemma GatherExpected(m: Manager, pc: Cell)
    requires GridInv(m)
    ensures Gather(m.grid, NeighborCells(pc)) == Expected(m, pc)
  {
    NeighborCellsExact(pc);
    GatherNear(m, pc, NeighborCells(pc));
  }

  lemma GatherNear(m: Manager, pc: Cell, cells: seq<Cell>)
    requires GridInv(m) && forall d :: d in cells <==> Near(d, pc)
    ensures Gather(m.grid, cells) == Expected(m, pc)
  {
    var g := Gather(m.grid, cells);
    forall e | e in Expected(m, pc) ensures e in g {
      GatherHas(m, pc, cells, e);
    }
    forall e | e in g ensures e in Expected(m, pc) {
      GatherOnly(m, pc, cells, e);
    }
  }

  lemma GatherHas(m: Manager, pc: Cell, cells: seq<Cell>, e: Entity)
    requires GridInv(m) && forall d :: d in cells <==> Near(d, pc)
    requires e in Expected(m, pc)
    ensures e in Gather(m.grid, cells)
  {
    GatherMembers(m.grid, cells, e);
    assert EntityCell(m, e) in cells;
  }

  lemma GatherOnly(m: Manager, pc: Cell, cells: seq<Cell>, e: Entity)
    requires GridInv(m) && forall d :: d in cells <==> Near(d, pc)
    requires e in Gather(m.grid, cells)
    ensures e in Expected(m, pc)
  {
    GatherMembers(m.grid, cells, e);
    var c :| c in cells && c in m.grid && e in m.grid[c];
    assert Near(c, pc);
  }

  /** The grid invariant reads only the cell size, the grid and the
      entity positions. */
  lemma GridFrame(m: Manager, r: Manager)
    requires GridInv(m)
    requires r.cellSize == m.cellSize && r.grid == m.grid && r.entities == m.entities
    ensures GridInv(r)
  {
    forall e | e in r.entities ensures EntityCell(r, e) == EntityCell(m, e) {
    }
  }

  /** `updatePlayerPosition`: interest is recomputed on the first call
      and whenever the position differs. */
  function UpdatePlayerPosition(m: Manager, p: string, pos: Pos): (r: Manager)
    ensures r.cellSize == m.cellSize && r.players == m.players[p := pos] && r.grid == m.grid && r.entities == m.entities
    ensures p in m.players && m.players[p] == pos ==> r.interests == m.interests
    ensures p !in m.players || m.players[p] != pos ==> r.interests == m.interests[p := Gather(m.grid, NeighborCells(CellOf(pos, m.cellSize)))]
  {
    var changed := p !in m.players || m.players[p] != pos;
    var m1 := m.(players := m.players[p := pos]);
    if changed then RecomputeInterest(m1, p) else m1
  }

  lemma UpdatePlayerPositionKeepsInv(m: Manager, p: string, pos: Pos)
    requires Inv(m)
    ensures Inv(UpdatePlayerPosition(m, p, pos))
  {
    var r := UpdatePlayerPosition(m, p, pos);
    GridFrame(m, r);
    if p in m.players && m.players[p] == pos {
      assert r.players == m.players && r.interests == m.interests;
      forall q | q in r.players ensures r.interests[q] == Expected(r, PlayerCell(r, q)) {
        ExpectedFrame(m, r, PlayerCell(r, q));
      }
    } else {
      MovedPlayerInterest(m, p, pos, r);
    }
  }

  lemma MovedPlayerInterest(m: Manager, p: string, pos: Pos, r: Manager)
    requires Inv(m)
    requires r.cellSize == m.cellSize && r.entities == m.entities && r.grid == m.grid
    requires r.players == m.players[p := pos]
    requires r.interests == m.interests[p := Gather(m.grid, NeighborCells(CellOf(pos, m.cellSize)))]
    ensures InterestInv(r)
  {
    GatherExpected(m, CellOf(pos, m.cellSize));
    forall q | q in r.players ensures q in r.interests && r.interests[q] == Expected(r, PlayerCell(r, q)) {
      ExpectedFrame(m, r, PlayerCell(r, q));
    }
  }

  /** The expected set reads only the cell size and the entity positions. */
  lemma ExpectedFrame(m: Manager, r: Manager, pc: Cell)
    requires r.cellSize == m.cellSize && r.entities == m.entities
    ensures Expected(r, pc) == Expected(m, pc)
  {
    forall e | e in r.entities ensures EntityCell(r, e) == EntityCell(m, e) {
    }
  }

  /** Takes `e` out of cell `c`, dropping the cell once empty. */
  function Unplace(grid: map<Cell, set<Entity>>, c: Cell, e: Entity): (r: map<Cell, set<Entity>>)
    ensures forall d :: d != c ==> (d in r <==> d in grid) && (d in r ==> r[d] == grid[d])
    ensures c in r <==> c in grid && grid[c] - {e} != {}
    ensures c in r ==> r[c] == grid[c] - {e}
  {
    if c !in grid then grid
    else
      var rest := grid[c] - {e};
      if rest == {} then grid - {c} else grid[c := rest]
  }

  /** Puts `e` into cell `c`, creating the cell if needed. */
  function Place(grid: map<Cell, set<Entity>>, c: Cell, e: Entity): (r: map<Cell, set<Entity>>)
    ensures forall d :: d != c ==> (d in r <==> d in grid) && (d in r ==> r[d] == grid[d])
    ensures c in r && r[c] == (if c in grid then grid[c] else {}) + {e}
  {
    grid[c := (if c in grid then grid[c] else {}) + {e}]
  }

  /** `updateInterestsForEntity`: every player with a position near the
      entity's cell gains it (getting a set if it had none); every other
      player with a position loses it. */
  function Spread(m: Manager, e: Entity, ec: Cell): (r: map<string, set<Entity>>)
    ensures forall p :: p in r <==> p in m.interests || (p in m.players && Near(ec, PlayerCell(m, p)))
    ensures forall p :: p in r && p in m.players && Near(ec, PlayerCell(m, p)) ==>
      r[p] == (if p in m.interests then m.interests[p] else {}) + {e}
    ensures forall p :: p in r && p in m.players && !Near(ec, PlayerCell(m, p)) ==> r[p] == m.interests[p] - {e}
    ensures forall p :: p in r && p !in m.players ==> r[p] == m.interests[p]
  {
    map p | p in m.interests.Keys + (set q | q in m.players && Near(ec, PlayerCell(m, q))) ::
      if p in m.players && Near(ec, PlayerCell(m, p)) then (if p in m.interests then m.interests[p] else {}) + {e}
      else if p in m.players then m.interests[p] - {e}
      else m.interests[p]
  }

  /** `updateEntity(e, pos, data)`. */
  function UpdateEntity(m: Manager, e: Entity, pos: Pos, data: Protocol.JsValue): (r: Manager)
    ensures r.entities == m.entities[e := Tracked(pos, data)] && r.players == m.players
  {
    var g1 := if e in m.entities then Unplace(m.grid, EntityCell(m, e), e) else m.grid;
    var ec := CellOf(pos, m.cellSize);
    var m1 := m.(grid := Place(g1, ec, e), entities := m.entities[e := Tracked(pos, data)]);
    m1.(interests := Spread(m1, e, ec))
  }

  lemma UpdateEntityKeepsGrid(m: Manager, e: Entity, pos: Pos, data: Protocol.JsValue)
    requires GridInv(m)
    ensures GridInv(UpdateEntity(m, e, pos, data))
  {
    var r := UpdateEntity(m, e, pos, data);
    var ec := CellOf(pos, m.cellSize);
    forall c, x | c in r.grid && x in r.grid[c] ensures x in r.entities && EntityCell(r, x) == c {
      if x != e {
        assert x in m.grid[c];
      }
    }
    forall x | x in r.entities ensures EntityCell(r, x) in r.grid && x in r.grid[EntityCell(r, x)] {
      if x != e {
        assert EntityCell(r, x) == EntityCell(m, x);
      }
    }
  }

  lemma UpdateEntityKeepsInterest(m: Manager, e: Entity, pos: Pos, data: Protocol.JsValue)
    requires Inv(m)
    ensures InterestInv(UpdateEntity(m, e, pos, data))
  {
    var r := UpdateEntity(m, e, pos, data);
    forall p | p in r.players ensures p in r.interests && r.interests[p] == Expected(r, PlayerCell(r, p)) {
      var pc := PlayerCell(m, p);
      assert PlayerCell(r, p) == pc;
      forall x ensures x in r.interests[p] <==> x in Expected(r, pc) {
        if x != e {
          assert x in r.entities <==> x in m.entities;
          if x in m.entities {
            assert EntityCell(r, x) == EntityCell(m, x);
          }
        } else {
          NearSymmetric(CellOf(pos, m.cellSize), pc);
        }
      }
    }
  }

  /** `updateEntity` keeps both invariants. */
  lemma UpdateEntityKeepsInv(m: Manager, e: Entity, pos: Pos, data: Protocol.JsValue)
    requires Inv(m)
    ensures Inv(UpdateEntity(m, e, pos, data))
  {
    UpdateEntityKeepsGrid(m, e, pos, data);
    UpdateEntityKeepsInterest(m, e, pos, data);
  }

  /** `removeEntity(e)`: unknown entities are ignored. */
  function RemoveEntity(m: Manager, e: Entity): (r: Manager)
    ensures e !in m.entities ==> r == m
    ensures r.entities == m.entities - {e} && r.players == m.players
    ensures e in m.entities ==> r.interests.Keys == m.interests.Keys && forall p :: p in r.interests ==> e !in r.interests[p]
  {
    if e !in m.entities then m
    else
      m.(grid := Unplace(m.grid, EntityCell(m, e), e),
         entities := m.entities - {e},
         interests := map p | p in m.interests :: m.interests[p] - {e})
  }

  /** `removeEntity` keeps both invariants, and afterwards nobody is
      interested in the entity. */
  lemma RemoveEntityKeepsInv(m: Manager, e: Entity)
    requires Inv(m)
    ensures var r := RemoveEntity(m, e);
      Inv(r) && forall p :: p in r.interests ==> e !in r.interests[p]
  {
    var r := RemoveEntity(m, e);
    if e in m.entities {
      forall c, x | c in r.grid && x in r.grid[c] ensures x in r.entities && EntityCell(r, x) == c {
        assert x in m.grid[c];
      }
      forall x | x in r.entities ensures EntityCell(r, x) in r.grid && x in r.grid[EntityCell(r, x)] {
        assert EntityCell(r, x) == EntityCell(m, x);
      }
      forall p | p in r.players ensures r.interests[p] == Expected(r, PlayerCell(r, p)) {
        forall x ensures x in r.interests[p] <==> x in Expected(r, PlayerCell(r, p)) {
          if x in r.entities {
            assert EntityCell(r, x) == EntityCell(m, x);
          }
        }
      }
    } else {
      forall p | p in m.interests ensures e !in m.interests[p] {
        assert e !in Expected(m, PlayerCell(m, p));
      }
    }
  }

  /** `removePlayer`: its position and its interests go. */
  function RemovePlayer(m: Manager, p: string): (r: Manager)
    ensures p !in r.players && p !in r.interests
    ensures forall q :: q != p ==> (q in r.players <==> q in m.players) && (q in r.interests <==> q in m.interests)
    ensures forall q :: q in r.interests ==> r.interests[q] == m.interests[q]
    ensures r.grid == m.grid && r.entities == m.entities
  {
    m.(players := m.players - {p}, interests := m.interests - {p})
  }

  lemma RemovePlayerKeepsInv(m: Manager, p: string)
    requires Inv(m)
    ensures Inv(RemovePlayer(m, p))
  {
    var r := RemovePlayer(m, p);
    assert r.grid == m.grid && r.entities == m.entities && r.cellSize == m.cellSize;
    assert forall e :: e in r.entities ==> EntityCell(r, e) == EntityCell(m, e);
    assert GridInv(r);
    forall q | q in r.players ensures r.interests[q] == Expected(r, PlayerCell(r, q)) {
      assert Expected(r, PlayerCell(r, q)) == Expected(m, PlayerCell(m, q));
    }
  }

  /** `clear`: the grid, both position maps, the interests and the
      metrics are reset; the cell size stays. */
  function Clear(m: Manager): (r: Manager)
    ensures r.grid == map[] && r.players == map[] && r.entities == map[] && r.interests == map[]
    ensures r.metrics == NoMetrics && r.cellSize == m.cellSize
    ensures Inv(r)
  {
    Empty(m.cellSize)
  }

  /** `getInterestsForPlayer`: the interest set restricted to entities
      still tracked; nothing for an unknown player. */
  function InterestsOf(m: Manager, p: string): (r: set<Entity>)
    ensures p !in m.interests ==> r == {}
    ensures forall e :: e in r <==> p in m.interests && e in m.interests[p] && e in m.entities
  {
    if p !in m.interests then {} else set e | e in m.interests[p] && e in m.entities
  }

  /** What a positioned player sees, stated without the grid. */
  lemma InterestsOfExact(m: Manager, p: string, e: Entity)
    requires Inv(m)
    ensures e in InterestsOf(m, p) <==> p in m.players && e in m.entities && Near(EntityCell(m, e), PlayerCell(m, p))
  {
  }

  /** Something `filterEntitiesForPlayer` is handed: it only reads `id`. */
  datatype Item = Item(id: Entity, data: Protocol.JsValue)

  function Keep(items: seq<Item>, ids: set<Entity>): (r: seq<Item>)
    ensures |r| <= |items|
    ensures forall x :: x in r <==> x in items && x.id in ids
  {
    if |items| == 0 then []
    else (if items[0].id in ids then [items[0]] else []) + Keep(items[1..], ids)
  }

  /** `k` items of `n` kept: `(1 - k / max(1, n)) * 100`. */
  function Reduction(k: nat, n: nat): (r: real)
    requires k <= n
    ensures 0.0 <= r <= 100.0
    ensures r == 100.0 <==> k == 0
    ensures r == 0.0 <==> 0 < k == n
  {
    var d := if n < 1 then 1 else n;
    (1.0 - k as real / d as real) * 100.0
  }

  /** `filterEntitiesForPlayer(p, items)`: the interesting items, counted. */
  function Filter(m: Manager, p: string, items: seq<Item>): (r: (Manager, seq<Item>))
    ensures var (m', kept) := r;
      && m'.grid == m.grid && m'.players == m.players && m'.entities == m.entities && m'.interests == m.interests
      && |kept| <= |items|
      && m'.metrics.totalEntities == |items|
      && m'.metrics.entitiesSent == m.metrics.entitiesSent + |kept|
      && m'.metrics.updates == m.metrics.updates + 1
      && m'.metrics.reductionRatio == Reduction(|kept|, |items|)
  {
    var kept := Keep(items, InterestsOf(m, p));
    var mt := Metrics(|items|, m.metrics.entitiesSent + |kept|, Reduction(|kept|, |items|), m.metrics.updates + 1);
    (m.(metrics := mt), kept)
  }

  /** Filtering respects input order: it distributes over concatenation. */
  lemma {:induction false} KeepAppend(a: seq<Item>, b: seq<Item>, ids: set<Entity>)
    ensures Keep(a + b, ids) == Keep(a, ids) + Keep(b, ids)
  {
    if |a| > 0 {
      assert (a + b)[1..] == a[1..] + b;
      KeepAppend(a[1..], b, ids);
    } else {
      assert a + b == b;
    }
  }

  /** When every id is interesting, the list comes back unchanged. */
  lemma {:induction false} KeepAll(items: seq<Item>, ids: set<Entity>)
    requires forall i :: 0 <= i < |items| ==> items[i].id in ids
    ensures Keep(items, ids) == items
  {
    if |items| > 0 {
      KeepAll(items[1..], ids);
    }
  }

  lemma {:induction false} KeepNone(items: seq<Item>, ids: set<Entity>)
    requires ids == {}
    ensures Keep(items, ids) == []
  {
    if |items| > 0 {
      KeepNone(items[1..], ids);
    }
  }

  /** An unknown player is sent nothing. */
  lemma UnknownPlayerGetsNothing(m: Manager, p: string, items: seq<Item>)
    requires p !in m.interests
    ensures Filter(m, p, items).1 == []
  {
    KeepNone(items, InterestsOf(m, p));
  }

  /** `getMetrics().averageEntitiesPerUpdate`. */
  function AverageEntitiesPerUpdate(mt: Metrics): (r: real)
    ensures mt.updates == 0 ==> r == 0.0
    ensures mt.updates > 0 ==> r * mt.updates as real == mt.entitiesSent as real
  {
    if mt.updates > 0 then mt.entitiesSent as real / mt.updates as real else 0.0
  }
}
