/** The road network: placing a road links it both ways to every road
    within one grid step, entities map to their closest road, and two
    entities are connected when a breadth-first search over the links
    reaches one's road from the other's. The TypeScript system and its
    JavaScript twin differ in how they treat a closest road whose id is 0. */
module Roads {
  import opened Wrappers

  type Entity = int

  /** A planar position; the height `y` plays no part. */
  datatype Pos = Pos(x: real, z: real)

  /** Positions, and each road's `connectedTo` list. */
  datatype Net = Net(pos: map<Entity, Pos>, links: map<Entity, seq<Entity>>)

  datatype Twin = Ts | Js

  /** Squared planar distance; every comparison of `Math.sqrt` of it
      against a non-negative bound is made here on the squares. */
  function SqDist(a: Pos, b: Pos): real
  {
    (a.x - b.x) * (a.x - b.x) + (a.z - b.z) * (a.z - b.z)
  }

  /** `dist <= 10.1`. */
  predicate Near(a: Pos, b: Pos)
  {
    SqDist(a, b) <= 10.1 * 10.1
  }

  /** The roads among `others` that the new road `e` links to, in order. */
  function NearOnes(net: Net, e: Entity, others: seq<Entity>): (r: seq<Entity>)
    requires e in net.pos
    ensures forall o :: o in r <==> o in others && o != e && o in net.pos && Near(net.pos[e], net.pos[o])
    ensures |r| <= |others|
  {
    if |others| == 0 then []
    else
      var o := others[0];
      (if Linked(net, e, o) then [o] else []) + NearOnes(net, e, others[1..])
  }

  /** Whether the new road `e` links to `o`. */
  predicate Linked(net: Net, e: Entity, o: Entity)
    requires e in net.pos
  {
    o != e && o in net.pos && Near(net.pos[e], net.pos[o])
  }

  /** One iteration of `onRoadPlaced`'s loop: a linked `o` is pushed onto
      `e`'s list and, when `o` has a Road, `e` onto `o`'s. */
  function Step(net: Net, e: Entity, o: Entity): (r: Net)
    requires e in net.pos && e in net.links
    ensures r.pos == net.pos && r.links.Keys == net.links.Keys
    ensures r.links[e] == net.links[e] + (if Linked(net, e, o) then [o] else [])
    ensures forall x :: x in net.links && x != e ==> r.links[x] == net.links[x] + (if Linked(net, e, o) && x == o then [e] else [])
  {
    if !Linked(net, e, o) then net
    else
      var l := net.links[e := net.links[e] + [o]];
      net.(links := if o in l then l[o := l[o] + [e]] else l)
  }

  /** The loop of `onRoadPlaced` over the road query's entities. */
  function Link(net: Net, e: Entity, others: seq<Entity>): (r: Net)
    requires e in net.pos && e in net.links
    ensures r.pos == net.pos && r.links.Keys == net.links.Keys
    decreases |others|
  {
    if |others| == 0 then net else Link(Step(net, e, others[0]), e, others[1..])
  }

  /** `onRoadPlaced`: a no-op unless the entity has both a position and a
      road. */
  function OnRoadPlaced(net: Net, e: Entity, others: seq<Entity>): (r: Net)
    ensures r.pos == net.pos && r.links.Keys == net.links.Keys
    ensures e !in net.pos || e !in net.links ==> r == net
  {
    if e !in net.pos || e !in net.links then net else Link(net, e, others)
  }

  /** How many times `x` occurs in `s`. */
  function Count(s: seq<Entity>, x: Entity): nat
  {
    if |s| == 0 then 0 else (if s[0] == x then 1 else 0) + Count(s[1..], x)
  }

  /** The new road's list grows by exactly its near neighbours, in query
      order. */
  lemma {:induction false} LinkAppendsOwn(net: Net, e: Entity, others: seq<Entity>)
    requires e in net.pos && e in net.links
    ensures Link(net, e, others).links[e] == net.links[e] + NearOnes(net, e, others)
    decreases |others|
  {
    if |others| > 0 {
      var next := Step(net, e, others[0]);
      LinkAppendsOwn(next, e, others[1..]);
      SamePosNear(net, next, e, others[1..]);
    }
  }

  /** Every other road's list keeps its entries in front and grows by one
      `e` per time it was linked. */
  lemma {:induction false} LinkAppendsOther(net: Net, e: Entity, others: seq<Entity>, x: Entity)
    requires e in net.pos && e in net.links && x in net.links && x != e
    ensures Link(net, e, others).links[x] == net.links[x] + Repeat(e, Count(NearOnes(net, e, others), x))
    decreases |others|
  {
    if |others| > 0 {
      var o := others[0];
      var next := Step(net, e, o);
      var rest := NearOnes(net, e, others[1..]);
      var head := if Linked(net, e, o) then [o] else [];
      LinkAppendsOther(next, e, others[1..], x);
      SamePosNear(net, next, e, others[1..]);
      CountAppend(head, rest, x);
      var c := Count(head, x);
      assert next.links[x] == net.links[x] + Repeat(e, c);
      RepeatAdd(e, c, Count(rest, x));
    }
  }

  lemma {:induction false} CountAppend(a: seq<Entity>, b: seq<Entity>, x: Entity)
    ensures Count(a + b, x) == Count(a, x) + Count(b, x)
    decreases |a|
  {
    if |a| > 0 {
      assert (a + b)[1..] == a[1..] + b;
      CountAppend(a[1..], b, x);
    } else {
      assert a + b == b;
    }
  }

  lemma {:induction false} SamePosNear(a: Net, b: Net, e: Entity, others: seq<Entity>)
    requires a.pos == b.pos && e in a.pos
    ensures NearOnes(a, e, others) == NearOnes(b, e, others)
    decreases |others|
  {
    if |others| > 0 {
      SamePosNear(a, b, e, others[1..]);
    }
  }

  function Repeat(x: Entity, n: nat): (r: seq<Entity>)
    ensures |r| == n && forall i :: 0 <= i < n ==> r[i] == x
  {
    if n == 0 then [] else [x] + Repeat(x, n - 1)
  }

  lemma {:induction false} RepeatAdd(x: Entity, a: nat, b: nat)
    ensures Repeat(x, a) + Repeat(x, b) == Repeat(x, a + b)
  {
    assert |Repeat(x, a) + Repeat(x, b)| == a + b;
    assert forall i :: 0 <= i < a + b ==> (Repeat(x, a) + Repeat(x, b))[i] == x;
  }

  /** Placing the same road twice links every near neighbour twice: the
      lists are not deduplicated. */
  lemma PlacingTwiceDuplicates(net: Net, e: Entity, others: seq<Entity>)
    requires e in net.pos && e in net.links
    ensures OnRoadPlaced(OnRoadPlaced(net, e, others), e, others).links[e]
      == net.links[e] + NearOnes(net, e, others) + NearOnes(net, e, others)
  {
    var once := OnRoadPlaced(net, e, others);
    LinkAppendsOwn(net, e, others);
    LinkAppendsOwn(once, e, others);
    SamePosNear(net, once, e, others);
  }

  /** Links are mutual: each road lists the other whenever one lists it. */
  ghost predicate Symmetric(links: map<Entity, seq<Entity>>)
  {
    forall a, b :: a in links && b in links ==> (b in links[a] <==> a in links[b])
  }

  /** Linking keeps the network symmetric when every road the query lists
      holds a Road component, as the `Road`+`Position` query guarantees. */
  lemma {:induction false} LinkKeepsSymmetric(net: Net, e: Entity, others: seq<Entity>)
    requires e in net.pos && e in net.links && Symmetric(net.links)
    requires forall i :: 0 <= i < |others| ==> others[i] in net.links
    requires forall a :: a in net.links ==> forall j :: 0 <= j < |net.links[a]| ==> net.links[a][j] in net.links
    ensures Symmetric(Link(net, e, others).links)
    decreases |others|
  {
    if |others| > 0 {
      var o := others[0];
      var next := Step(net, e, o);
      if Linked(net, e, o) {
        forall a, b | a in next.links && b in next.links ensures b in next.links[a] <==> a in next.links[b] {
          assert b in next.links[a] <==> b in net.links[a] || (a == e && b == o) || (a == o && b == e);
          assert a in next.links[b] <==> a in net.links[b] || (b == e && a == o) || (b == o && a == e);
        }
        forall a | a in next.links ensures forall j :: 0 <= j < |next.links[a]| ==> next.links[a][j] in next.links {
          forall j | 0 <= j < |next.links[a]| ensures next.links[a][j] in next.links {
            if j >= |net.links[a]| {
              assert next.links[a][j] in {o, e};
            } else {
              assert next.links[a][j] == net.links[a][j];
            }
          }
        }
      }
      LinkKeepsSymmetric(next, e, others[1..]);
    }
  }

  /** `findClosestRoad`: nothing without a position; a road is its own
      closest road; otherwise the first listed road at the least distance,
      provided that distance is at most 15. */
  method FindClosestRoad(net: Net, e: Entity, roads: seq<Entity>) returns (r: Option<Entity>)
    ensures e !in net.pos ==> r == None
    ensures e in net.pos && e in net.links ==> r == Some(e)
    ensures e in net.pos && e !in net.links && r.Some? ==>
      exists k :: 0 <= k < |roads| && roads[k] == r.value && roads[k] in net.pos
        && SqDist(net.pos[e], net.pos[roads[k]]) <= 15.0 * 15.0
        && (forall i :: 0 <= i < |roads| && roads[i] in net.pos ==> SqDist(net.pos[e], net.pos[roads[k]]) <= SqDist(net.pos[e], net.pos[roads[i]]))
        && (forall i :: 0 <= i < k && roads[i] in net.pos ==> SqDist(net.pos[e], net.pos[roads[k]]) < SqDist(net.pos[e], net.pos[roads[i]]))
    ensures e in net.pos && e !in net.links && r.None? ==>
      forall i :: 0 <= i < |roads| && roads[i] in net.pos ==> SqDist(net.pos[e], net.pos[roads[i]]) > 15.0 * 15.0
  {
    if e !in net.pos { return None; }
    if e in net.links { return Some(e); }
    var p := net.pos[e];
    var best: Option<Entity> := None;
    var bestD: real := 0.0;
    ghost var bestK := 0;
    var n := 0;
    while n < |roads|
      invariant 0 <= n <= |roads|
      invariant best.None? ==> forall i :: 0 <= i < n ==> roads[i] !in net.pos
      invariant best.Some? ==>
        0 <= bestK < n && roads[bestK] == best.value && roads[bestK] in net.pos
        && bestD == SqDist(p, net.pos[roads[bestK]])
        && (forall i :: 0 <= i < n && roads[i] in net.pos ==> bestD <= SqDist(p, net.pos[roads[i]]))
        && (forall i :: 0 <= i < bestK && roads[i] in net.pos ==> bestD < SqDist(p, net.pos[roads[i]]))
    {
      var id := roads[n];
      if id in net.pos {
        var d := SqDist(p, net.pos[id]);
        if best.None? || d < bestD {
          best, bestD, bestK := Some(id), d, n;
        }
      }
      n := n + 1;
    }
    if best.Some? && bestD <= 15.0 * 15.0 {
      r := best;
    } else {
      r := None;
    }
  }

  /** A walk along `connectedTo` lists. */
  ghost predicate Walk(links: map<Entity, seq<Entity>>, w: seq<Entity>)
  {
    |w| >= 1 && forall i :: 0 <= i < |w| - 1 ==> w[i] in links && w[i + 1] in links[w[i]]
  }

  ghost predicate Reachable(links: map<Entity, seq<Entity>>, s: Entity, t: Entity)
  {
    exists w :: Walk(links, w) && w[0] == s && w[|w| - 1] == t
  }

  /** Every entity any list mentions, plus `s`: the nodes a search can meet. */
  function Nodes(links: map<Entity, seq<Entity>>, s: Entity): set<Entity>
  {
    {s} + set a, j | a in links && 0 <= j < |links[a]| :: links[a][j]
  }

  /** Pushes the not-yet-visited entries of one `connectedTo` list. */
  function Visit(nbrs: seq<Entity>, visited: set<Entity>, queue: seq<Entity>): (r: (set<Entity>, seq<Entity>))
    ensures r.0 == visited + set j | 0 <= j < |nbrs| :: nbrs[j]
    ensures |r.1| >= |queue| && r.1[..|queue|] == queue
    ensures forall i :: |queue| <= i < |r.1| ==> r.1[i] in nbrs && r.1[i] !in visited
    ensures forall v :: v in r.0 && v !in visited ==> v in r.1
    ensures r.0 == visited ==> r.1 == queue
    decreases |nbrs|
  {
    if |nbrs| == 0 then (visited, queue)
    else
      var n := nbrs[0];
      var step := if n in visited then (visited, queue) else (visited + {n}, queue + [n]);
      var r := Visit(nbrs[1..], step.0, step.1);
      assert (set j | 0 <= j < |nbrs| :: nbrs[j]) == {n} + set j | 0 <= j < |nbrs[1..]| :: nbrs[1..][j] by {
        forall j | 0 <= j < |nbrs| ensures nbrs[j] in {n} + set j | 0 <= j < |nbrs[1..]| :: nbrs[1..][j] {
          if j > 0 { assert nbrs[1..][j - 1] == nbrs[j]; }
        }
      }
      assert n !in visited ==> step.1[|step.1| - 1] == n && r.1[|step.1| - 1] == n;
      r
  }

  /** A closed set of visited entities holds every entity a walk from one
      of its members reaches. */
  lemma {:induction false} ClosedHoldsWalk(links: map<Entity, seq<Entity>>, visited: set<Entity>, w: seq<Entity>, k: nat)
    requires Walk(links, w) && w[0] in visited && k < |w|
    requires forall v :: v in visited && v in links ==> forall j :: 0 <= j < |links[v]| ==> links[v][j] in visited
    ensures w[k] in visited
  {
    if k > 0 {
      ClosedHoldsWalk(links, visited, w, k - 1);
      var j :| 0 <= j < |links[w[k - 1]]| && links[w[k - 1]][j] == w[k];
    }
  }

  /** A walk from `s` to `v` extends by one link. */
  lemma ReachableStep(links: map<Entity, seq<Entity>>, s: Entity, v: Entity, j: nat)
    requires Reachable(links, s, v) && v in links && j < |links[v]|
    ensures Reachable(links, s, links[v][j])
  {
    var w :| Walk(links, w) && w[0] == s && w[|w| - 1] == v;
    assert Walk(links, w + [links[v][j]]);
  }

  /** What the search keeps true between iterations: everything visited is
      reachable from `s`; queued entities are visited; an entity visited
      and no longer queued has all its links visited; and `t`, once
      visited, is still waiting in the queue. */
  ghost predicate SearchInv(links: map<Entity, seq<Entity>>, s: Entity, t: Entity, queue: seq<Entity>, visited: set<Entity>)
  {
    && visited <= Nodes(links, s) && s in visited
    && (forall i :: 0 <= i < |queue| ==> queue[i] in visited)
    && (forall v :: v in visited ==> Reachable(links, s, v))
    && (forall v :: v in visited && v !in queue && v in links ==> forall j :: 0 <= j < |links[v]| ==> links[v][j] in visited)
    && (t in visited ==> t in queue)
  }

  /** One iteration of the search loop for a head that is not `t`. */
  function SearchStep(links: map<Entity, seq<Entity>>, queue: seq<Entity>, visited: set<Entity>): (r: (set<Entity>, seq<Entity>))
    requires |queue| > 0
  {
    if queue[0] in links then Visit(links[queue[0]], visited, queue[1..]) else (visited, queue[1..])
  }

  /** The search step keeps the invariant, never forgets a visited entity,
      and either visits something new or shortens the queue. */
  lemma SearchStepKeeps(links: map<Entity, seq<Entity>>, s: Entity, t: Entity, queue: seq<Entity>, visited: set<Entity>)
    requires |queue| > 0 && queue[0] != t && SearchInv(links, s, t, queue, visited)
    ensures var r := SearchStep(links, queue, visited);
      SearchInv(links, s, t, r.1, r.0) && visited <= r.0 && (r.0 == visited ==> |r.1| < |queue|)
  {
    var cur := queue[0];
    var rest := queue[1..];
    var r := SearchStep(links, queue, visited);
    assert forall v :: v in queue && v != cur ==> v in rest by {
      forall v | v in queue && v != cur ensures v in rest {
        var i :| 0 <= i < |queue| && queue[i] == v;
        assert rest[i - 1] == v;
      }
    }
    forall x | x in rest ensures x in r.1 {
      var i :| 0 <= i < |rest| && rest[i] == x;
      assert r.1[i] == x;
    }
    forall i | 0 <= i < |r.1| ensures r.1[i] in r.0 {
      if i < |rest| { assert r.1[i] == rest[i]; }
    }
    forall v | v in r.0 && v !in visited ensures v in Nodes(links, s) && Reachable(links, s, v) {
      var j :| 0 <= j < |links[cur]| && links[cur][j] == v;
      ReachableStep(links, s, cur, j);
    }
    forall v | v in r.0 && v !in r.1 && v in links
      ensures forall j :: 0 <= j < |links[v]| ==> links[v][j] in r.0
    {
      if v != cur {
        assert v !in queue;
      }
    }
  }

  /** The breadth-first search of `isConnected` from `s` to `t`. */
  /** The unvisited nodes shrink whenever the search step visits
      something new. */
  lemma SearchStepShrinks(links: map<Entity, seq<Entity>>, s: Entity, t: Entity, queue: seq<Entity>, visited: set<Entity>)
    requires |queue| > 0 && queue[0] != t && SearchInv(links, s, t, queue, visited)
    ensures var r := SearchStep(links, queue, visited);
      r.0 != visited ==> |Nodes(links, s) - r.0| < |Nodes(links, s) - visited|
  {
    SearchStepKeeps(links, s, t, queue, visited);
    var r := SearchStep(links, queue, visited);
    if r.0 != visited {
      StrictSubsetCard(Nodes(links, s) - r.0, Nodes(links, s) - visited);
    }
  }

  method Search(links: map<Entity, seq<Entity>>, s: Entity, t: Entity) returns (found: bool)
    ensures found <==> Reachable(links, s, t)
  {
    var queue := [s];
    var visited := {s};
    assert Walk(links, [s]);
    var nodes := Nodes(links, s);
    while |queue| > 0
      invariant SearchInv(links, s, t, queue, visited)
      decreases |nodes - visited|, |queue|
    {
      if queue[0] == t {
        assert queue[0] in visited;
        return true;
      }
      SearchStepKeeps(links, s, t, queue, visited);
      SearchStepShrinks(links, s, t, queue, visited);
      visited, queue := SearchStep(links, queue, visited).0, SearchStep(links, queue, visited).1;
    }
    SearchExhausted(links, s, t, visited);
    return false;
  }

  lemma StrictSubsetCard(a: set<Entity>, b: set<Entity>)
    requires a < b
    ensures |a| < |b|
  {
    assert b == a + (b - a);
    assert a * (b - a) == {};
  }

  lemma SubsetCard(a: set<Entity>, b: set<Entity>)
    requires a <= b
    ensures |a| <= |b|
  {
    assert b == a + (b - a);
  }

  /** An exhausted search has visited a closed set around `s` without `t`,
      so `t` is unreachable. */
  lemma SearchExhausted(links: map<Entity, seq<Entity>>, s: Entity, t: Entity, visited: set<Entity>)
    requires SearchInv(links, s, t, [], visited)
    ensures !Reachable(links, s, t)
  {
    if Reachable(links, s, t) {
      var w :| Walk(links, w) && w[0] == s && w[|w| - 1] == t;
      ClosedHoldsWalk(links, visited, w, |w| - 1);
    }
  }

  /** `isConnected`. `start` and `end` are the closest roads of the two
      entities. TypeScript gives up only when one is null; JavaScript's
      `!startRoad || !endRoad` also gives up when one of them is road 0. */
  method IsConnected(net: Net, start: Option<Entity>, end: Option<Entity>, twin: Twin) returns (r: bool)
    ensures start.None? || end.None? ==> !r
    ensures twin == Js && (start == Some(0) || end == Some(0)) ==> !r
    ensures start.Some? && end.Some? && (twin == Ts || (start.value != 0 && end.value != 0)) ==>
      (r <==> Reachable(net.links, start.value, end.value))
  {
    if start.None? || end.None? { return false; }
    if twin == Js && (start.value == 0 || end.value == 0) { return false; }
    if start.value == end.value {
      assert Walk(net.links, [start.value]);
      return true;
    }
    r := Search(net.links, start.value, end.value);
  }
}
