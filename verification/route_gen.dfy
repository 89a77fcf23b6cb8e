/** Galactic route generation: routes between the centres of grid-adjacent
    clusters, and, inside one cluster, the relative-neighbourhood graph of
    its star systems. */
module RouteGen {
  datatype Route = Route(start: string, end: string, kind: string)

  const InterCluster := "InterCluster"

  datatype Cluster = Cluster(x: real, y: real, centers: seq<string>)

  datatype Pos = Pos(x: real, y: real, z: real)

  datatype StarSystem = StarSystem(id: string, position: Pos)

  function Abs(a: real): real { if a < 0.0 then -a else a }

  function Max(a: real, b: real): real { if a >= b then a else b }

  /** `generateInterClusterRoutes` and `generateIntraClusterRoutes` share
      one loop shape: for every index pair i < j (i in the outer loop,
      j in the inner one) append `f(i, j)`. `Pairs(n, i, j, f)` is the rest
      of that iteration from the point (i, j). */
  function Pairs(n: nat, i: nat, j: nat, f: (nat, nat) -> seq<Route>): seq<Route>
    decreases n - i, n - j
  {
    if i >= n then []
    else if j >= n then Pairs(n, i + 1, i + 2, f)
    else f(i, j) + Pairs(n, i, j + 1, f)
  }

  /** `x` comes from row `i` at some column `b >= j`. */
  ghost predicate InRow(n: nat, i: nat, j: nat, f: (nat, nat) -> seq<Route>, x: Route)
  {
    exists b :: j <= b < n && x in f(i, b)
  }

  /** `x` comes from some later row. */
  ghost predicate InLater(n: nat, i: nat, f: (nat, nat) -> seq<Route>, x: Route)
  {
    exists a, b :: i < a < b < n && x in f(a, b)
  }

  lemma RowSplit(n: nat, i: nat, j: nat, f: (nat, nat) -> seq<Route>, x: Route)
    requires j < n
    ensures InRow(n, i, j, f, x) <==> x in f(i, j) || InRow(n, i, j + 1, f, x)
  {
    if InRow(n, i, j, f, x) && x !in f(i, j) {
      var b :| j <= b < n && x in f(i, b);
      assert j + 1 <= b;
    }
  }

  lemma LaterSplit(n: nat, i: nat, f: (nat, nat) -> seq<Route>, x: Route)
    ensures InLater(n, i, f, x) <==> (i + 1 < n && InRow(n, i + 1, i + 2, f, x)) || InLater(n, i + 1, f, x)
  {
    var i1 := i + 1;
    if InLater(n, i, f, x) && !InLater(n, i1, f, x) {
      var a, b :| i < a < b < n && x in f(a, b);
      assert a == i1;
      assert InRow(n, i1, i1 + 1, f, x);
    }
    if i1 < n && InRow(n, i1, i1 + 1, f, x) {
      var b :| i1 + 1 <= b < n && x in f(i1, b);
      assert i < i1 < b < n;
    }
  }

  /** A route comes out of the pair loop iff some pair still ahead of the
      loop produces it. */
  lemma {:induction false} PairsMembers(n: nat, i: nat, j: nat, f: (nat, nat) -> seq<Route>, x: Route)
    requires i < j
    ensures x in Pairs(n, i, j, f) <==> (i < n && InRow(n, i, j, f, x)) || InLater(n, i, f, x)
    decreases n - i, n - j
  {
    if i >= n {
      assert !InLater(n, i, f, x);
    } else if j >= n {
      assert Pairs(n, i, j, f) == Pairs(n, i + 1, i + 2, f);
      assert !InRow(n, i, j, f, x);
      PairsMembers(n, i + 1, i + 2, f, x);
      LaterSplit(n, i, f, x);
    } else {
      var rest := Pairs(n, i, j + 1, f);
      assert Pairs(n, i, j, f) == f(i, j) + rest;
      assert x in f(i, j) + rest <==> x in f(i, j) || x in rest;
      PairsMembers(n, i, j + 1, f, x);
      RowSplit(n, i, j, f, x);
    }
  }

  /** Every pair is visited with i < j, so each unordered pair once. */
  lemma AllPairsMembers(n: nat, f: (nat, nat) -> seq<Route>, x: Route)
    ensures x in Pairs(n, 0, 1, f) <==> exists a, b :: 0 <= a < b < n && x in f(a, b)
  {
    PairsMembers(n, 0, 1, f, x);
    LaterSplit(n, 0, f, x);
    if exists a, b :: 0 <= a < b < n && x in f(a, b) {
      var a, b :| 0 <= a < b < n && x in f(a, b);
      if a == 0 { assert InRow(n, 0, 1, f, x); } else { assert InLater(n, 0, f, x); }
    }
  }

  /** Clusters whose grid coordinates differ by exactly 1 on one axis and
      not at all on the other. */
  predicate Adjacent(c1: Cluster, c2: Cluster)
  {
    var dx := Abs(c1.x - c2.x);
    var dy := Abs(c1.y - c2.y);
    (dx == 1.0 && dy == 0.0) || (dx == 0.0 && dy == 1.0)
  }

  /** Every centre of `a` to every centre of `b`, `a` outermost. */
  function Cross(a: seq<string>, b: seq<string>): (r: seq<Route>)
    ensures forall x :: x in r <==> x.kind == InterCluster && x.start in a && x.end in b
  {
    if |a| == 0 then [] else Row(a[0], b) + Cross(a[1..], b)
  }

  function Row(s: string, b: seq<string>): (r: seq<Route>)
    ensures |r| == |b|
    ensures forall k :: 0 <= k < |b| ==> r[k] == Route(s, b[k], InterCluster)
    ensures forall x :: x in r <==> x.kind == InterCluster && x.start == s && x.end in b
  {
    if |b| == 0 then [] else [Route(s, b[0], InterCluster)] + Row(s, b[1..])
  }

  /** One route per pair of centres. */
  lemma {:induction false} CrossLength(a: seq<string>, b: seq<string>)
    ensures |Cross(a, b)| == |a| * |b|
  {
    if |a| > 0 {
      CrossLength(a[1..], b);
      assert |a| * |b| == |b| + (|a| - 1) * |b|;
    }
  }

  function InterPair(clusters: seq<Cluster>): (nat, nat) -> seq<Route>
  {
    (i: nat, j: nat) =>
      if i < |clusters| && j < |clusters| && Adjacent(clusters[i], clusters[j])
      then Cross(clusters[i].centers, clusters[j].centers)
      else []
  }

  /** `generateInterClusterRoutes`, over the clusters in map order. */
  function InterRoutes(clusters: seq<Cluster>): seq<Route>
  {
    Pairs(|clusters|, 0, 1, InterPair(clusters))
  }

  /** An inter-cluster route joins a centre of an earlier cluster to a
      centre of a later, adjacent one, and every such pair is joined. */
  lemma InterRoutesExact(clusters: seq<Cluster>, x: Route)
    ensures x in InterRoutes(clusters) <==>
      x.kind == InterCluster &&
      exists i, j :: 0 <= i < j < |clusters| && Adjacent(clusters[i], clusters[j])
        && x.start in clusters[i].centers && x.end in clusters[j].centers
  {
    var f := InterPair(clusters);
    AllPairsMembers(|clusters|, f, x);
    if x in InterRoutes(clusters) {
      var i, j :| 0 <= i < j < |clusters| && x in f(i, j);
      assert Adjacent(clusters[i], clusters[j]) && x.start in clusters[i].centers && x.end in clusters[j].centers;
    }
    if x.kind == InterCluster &&
      exists i, j :: 0 <= i < j < |clusters| && Adjacent(clusters[i], clusters[j])
        && x.start in clusters[i].centers && x.end in clusters[j].centers
    {
      var i, j :| 0 <= i < j < |clusters| && Adjacent(clusters[i], clusters[j])
        && x.start in clusters[i].centers && x.end in clusters[j].centers;
      assert x in f(i, j);
    }
  }

  /** The squared distance; `dist` is its square root. */
  function SqDist(p: Pos, q: Pos): (r: real)
    ensures r >= 0.0
  {
    (p.x - q.x) * (p.x - q.x) + (p.y - q.y) * (p.y - q.y) + (p.z - q.z) * (p.z - q.z)
  }

  /** Whether some third system `w = systems[k]`, k ≥ `from`, is nearer to
      both ends than they are to each other; `dist` is the square root
      the source calls, a parameter here. */
  predicate Blocked(systems: seq<StarSystem>, i: nat, j: nat, from: nat, dist: (Pos, Pos) -> real)
    requires i < |systems| && j < |systems|
    decreases |systems| - from
  {
    if from >= |systems| then false
    else if from == i || from == j then Blocked(systems, i, j, from + 1, dist)
    else
      var u, v, w := systems[i].position, systems[j].position, systems[from].position;
      Max(dist(u, w), dist(v, w)) < dist(u, v) || Blocked(systems, i, j, from + 1, dist)
  }

  /** The relative-neighbourhood test on squared distances, as a plain
      quantifier. */
  predicate Relative(systems: seq<StarSystem>, i: nat, j: nat)
    requires i < |systems| && j < |systems|
  {
    var u, v := systems[i].position, systems[j].position;
    forall k :: 0 <= k < |systems| && k != i && k != j ==>
      Max(SqDist(u, systems[k].position), SqDist(v, systems[k].position)) >= SqDist(u, v)
  }

  /** The distance the source uses: the square root of the squared
      distance, through any strictly increasing `sqrt`. */
  ghost predicate IsDist(dist: (Pos, Pos) -> real, sqrt: real -> real)
  {
    (forall p, q :: dist(p, q) == sqrt(SqDist(p, q)))
    && (forall a, b :: 0.0 <= a < b ==> sqrt(a) < sqrt(b))
  }

  lemma MaxMonotone(sqrt: real -> real, a: real, b: real, c: real)
    requires forall x, y :: 0.0 <= x < y ==> sqrt(x) < sqrt(y)
    requires a >= 0.0 && b >= 0.0 && c >= 0.0
    ensures Max(sqrt(a), sqrt(b)) < sqrt(c) <==> Max(a, b) < c
  {
    if a < c && b < c {
      assert sqrt(a) < sqrt(c) && sqrt(b) < sqrt(c);
    }
    if c <= a {
      if c < a { assert sqrt(c) < sqrt(a); }
    }
    if c <= b {
      if c < b { assert sqrt(c) < sqrt(b); }
    }
  }

  /** The early-exit scan over third systems decides exactly the
      relative-neighbourhood condition on squared distances. */
  lemma {:induction false} BlockedExact(systems: seq<StarSystem>, i: nat, j: nat, from: nat, dist: (Pos, Pos) -> real, sqrt: real -> real)
    requires i < |systems| && j < |systems| && IsDist(dist, sqrt)
    ensures Blocked(systems, i, j, from, dist) <==>
      exists k :: from <= k < |systems| && k != i && k != j &&
        Max(SqDist(systems[i].position, systems[k].position), SqDist(systems[j].position, systems[k].position))
          < SqDist(systems[i].position, systems[j].position)
    decreases |systems| - from
  {
    if from < |systems| {
      BlockedExact(systems, i, j, from + 1, dist, sqrt);
      if from != i && from != j {
        var u, v, w := systems[i].position, systems[j].position, systems[from].position;
        MaxMonotone(sqrt, SqDist(u, w), SqDist(v, w), SqDist(u, v));
      }
    }
  }

  function IntraPair(systems: seq<StarSystem>, dist: (Pos, Pos) -> real): (nat, nat) -> seq<Route>
  {
    (i: nat, j: nat) =>
      if i < |systems| && j < |systems| && !Blocked(systems, i, j, 0, dist)
      then [Route(systems[i].id, systems[j].id, InterCluster)]
      else []
  }

  lemma IntraPairAt(systems: seq<StarSystem>, dist: (Pos, Pos) -> real, sqrt: real -> real, i: nat, j: nat, x: Route)
    requires IsDist(dist, sqrt) && i < |systems| && j < |systems|
    ensures x in IntraPair(systems, dist)(i, j) <==> Relative(systems, i, j) && x == Route(systems[i].id, systems[j].id, InterCluster)
  {
    BlockedExact(systems, i, j, 0, dist, sqrt);
  }

  /** `generateIntraClusterRoutes`. Its routes reuse the InterCluster
      type. */
  function IntraRoutes(systems: seq<StarSystem>, dist: (Pos, Pos) -> real): seq<Route>
  {
    Pairs(|systems|, 0, 1, IntraPair(systems, dist))
  }

  /** An intra-cluster route joins an earlier system to a later one
      exactly when no third system is nearer to both. */
  lemma IntraRoutesExact(systems: seq<StarSystem>, dist: (Pos, Pos) -> real, sqrt: real -> real, x: Route)
    requires IsDist(dist, sqrt)
    ensures x in IntraRoutes(systems, dist) <==>
      exists i, j :: 0 <= i < j < |systems| && Relative(systems, i, j)
        && x == Route(systems[i].id, systems[j].id, InterCluster)
  {
    var f := IntraPair(systems, dist);
    AllPairsMembers(|systems|, f, x);
    if x in IntraRoutes(systems, dist) {
      var i, j :| 0 <= i < j < |systems| && x in f(i, j);
      IntraPairAt(systems, dist, sqrt, i, j, x);
    }
    if exists i, j :: 0 <= i < j < |systems| && Relative(systems, i, j)
        && x == Route(systems[i].id, systems[j].id, InterCluster)
    {
      var i, j :| 0 <= i < j < |systems| && Relative(systems, i, j)
        && x == Route(systems[i].id, systems[j].id, InterCluster);
      IntraPairAt(systems, dist, sqrt, i, j, x);
    }
  }

  /** With distinct system ids there are no self-routes. */
  lemma IntraNoSelfRoutes(systems: seq<StarSystem>, dist: (Pos, Pos) -> real, sqrt: real -> real, x: Route)
    requires IsDist(dist, sqrt)
    requires forall a, b :: 0 <= a < b < |systems| ==> systems[a].id != systems[b].id
    requires x in IntraRoutes(systems, dist)
    ensures x.start != x.end
  {
    IntraRoutesExact(systems, dist, sqrt, x);
  }
}
