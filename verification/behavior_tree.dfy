/** Behaviour-tree combinators of the game server's AI (BehaviorTree.ts).
    A tick threads the AI context through the children it visits, so a child
    that is never ticked can be seen not to have changed the context. */
module BehaviorTree {
  import opened Wrappers

  datatype Status = Success | Failure | Running

  /** Leaves are named; what a leaf does is supplied to `Tick` as `Leaves`. */
  datatype Node =
    | Selector(children: seq<Node>)
    | Sequence(children: seq<Node>)
    | Inverter(child: Node)
    | Action(action: nat)
    | Condition(condition: nat)

  /** The callbacks behind the leaves: an action may change the context, a
      condition only inspects it. */
  datatype Leaves<!C> = Leaves(act: (nat, C) -> (Status, C), test: (nat, C) -> bool)

  function Size(n: Node): (r: nat)
    ensures r >= 1
  {
    match n
    case Selector(cs) => 1 + SizeAll(cs)
    case Sequence(cs) => 1 + SizeAll(cs)
    case Inverter(c) => 1 + Size(c)
    case Action(_) => 1
    case Condition(_) => 1
  }

  function SizeAll(cs: seq<Node>): nat
  {
    if |cs| == 0 then 0 else Size(cs[0]) + SizeAll(cs[1..])
  }

  function Invert(s: Status): (r: Status)
    ensures s == Running <==> r == Running
    ensures s == Success <==> r == Failure
  {
    match s
    case Success => Failure
    case Failure => Success
    case Running => Running
  }

  /** No action ever answers RUNNING. */
  ghost predicate NeverRunning<C(!new)>(leaves: Leaves<C>)
  {
    forall a, c :: leaves.act(a, c).0 != Running
  }

  /** One tick of `n` in context `ctx`: its status and the context
      afterwards. RUNNING can only come from an action. */
  function Tick<C(!new)>(n: Node, ctx: C, leaves: Leaves<C>): (r: (Status, C))
    ensures NeverRunning(leaves) ==> r.0 != Running
    decreases Size(n), 1
  {
    match n
    case Selector(cs) => TickSelector(cs, ctx, leaves)
    case Sequence(cs) => TickSequence(cs, ctx, leaves)
    case Inverter(c) =>
      var (s, ctx') := Tick(c, ctx, leaves);
      (Invert(s), ctx')
    case Action(a) => leaves.act(a, ctx)
    case Condition(k) => (if leaves.test(k, ctx) then Success else Failure, ctx)
  }

  /** The Selector loop: the first child status other than FAILURE, else FAILURE. */
  function TickSelector<C(!new)>(cs: seq<Node>, ctx: C, leaves: Leaves<C>): (r: (Status, C))
    ensures NeverRunning(leaves) ==> r.0 != Running
    decreases SizeAll(cs), 2
  {
    if |cs| == 0 then (Failure, ctx)
    else
      var (s, ctx') := Tick(cs[0], ctx, leaves);
      if s != Failure then (s, ctx') else TickSelector(cs[1..], ctx', leaves)
  }

  /** The Sequence loop: the first child status other than SUCCESS, else SUCCESS. */
  function TickSequence<C(!new)>(cs: seq<Node>, ctx: C, leaves: Leaves<C>): (r: (Status, C))
    ensures NeverRunning(leaves) ==> r.0 != Running
    decreases SizeAll(cs), 2
  {
    if |cs| == 0 then (Success, ctx)
    else
      var (s, ctx') := Tick(cs[0], ctx, leaves);
      if s != Success then (s, ctx') else TickSequence(cs[1..], ctx', leaves)
  }

  /** Reference semantics: tick the first `k` children one after the other,
      ignoring their statuses; the statuses and the contexts after each tick. */
  function Trace<C(!new)>(cs: seq<Node>, ctx: C, leaves: Leaves<C>): (r: seq<(Status, C)>)
    ensures |r| == |cs|
    decreases |cs|
  {
    if |cs| == 0 then []
    else
      var (s, ctx') := Tick(cs[0], ctx, leaves);
      [(s, ctx')] + Trace(cs[1..], ctx', leaves)
  }

  /** Context after the first `k` children of `cs` have been ticked. */
  function After<C(!new)>(cs: seq<Node>, k: nat, ctx: C, leaves: Leaves<C>): C
    requires k <= |cs|
  {
    if k == 0 then ctx else Trace(cs, ctx, leaves)[k - 1].1
  }

  /** If every child fails, the Selector answers FAILURE after ticking them all. */
  lemma {:induction false} SelectorAllFail<C(!new)>(cs: seq<Node>, ctx: C, leaves: Leaves<C>)
    requires forall i :: 0 <= i < |cs| ==> Trace(cs, ctx, leaves)[i].0 == Failure
    ensures TickSelector(cs, ctx, leaves) == (Failure, After(cs, |cs|, ctx, leaves))
    decreases |cs|
  {
    if |cs| > 0 {
      var (s, ctx') := Tick(cs[0], ctx, leaves);
      var t := Trace(cs, ctx, leaves);
      var t' := Trace(cs[1..], ctx', leaves);
      assert t == [(s, ctx')] + t';
      assert t[0].0 == Failure;
      forall i | 0 <= i < |t'|
        ensures t'[i].0 == Failure
      {
        assert t'[i] == t[i + 1];
      }
      SelectorAllFail(cs[1..], ctx', leaves);
      if |cs| > 1 {
        assert t[|cs| - 1] == t'[|cs| - 2];
      }
    }
  }

  /** The Selector answers with the first child whose status is not FAILURE,
      leaving the context as that child left it: later children are never ticked. */
  lemma {:induction false} SelectorStopsAtFirstNonFailure<C(!new)>(cs: seq<Node>, k: nat, ctx: C, leaves: Leaves<C>)
    requires k < |cs|
    requires Trace(cs, ctx, leaves)[k].0 != Failure
    requires forall i :: 0 <= i < k ==> Trace(cs, ctx, leaves)[i].0 == Failure
    ensures TickSelector(cs, ctx, leaves) == Trace(cs, ctx, leaves)[k]
    decreases k
  {
    var (s, ctx') := Tick(cs[0], ctx, leaves);
    var t := Trace(cs, ctx, leaves);
    var t' := Trace(cs[1..], ctx', leaves);
    assert t == [(s, ctx')] + t';
    if k > 0 {
      assert t[0].0 == Failure;
      forall i | 0 <= i < k - 1
        ensures t'[i].0 == Failure
      {
        assert t'[i] == t[i + 1];
      }
      assert t'[k - 1] == t[k];
      SelectorStopsAtFirstNonFailure(cs[1..], k - 1, ctx', leaves);
    }
  }

  /** Inverting twice is the identity, context included. */
  lemma InverterInvolution<C(!new)>(n: Node, ctx: C, leaves: Leaves<C>)
    ensures Tick(Inverter(Inverter(n)), ctx, leaves) == Tick(n, ctx, leaves)
  {
  }

  /** Every child under its own inverter. */
  function InvertAll(cs: seq<Node>): seq<Node>
  {
    seq(|cs|, i requires 0 <= i < |cs| => Inverter(cs[i]))
  }

  /** De Morgan for behaviour trees: an inverted Selector ticks exactly like a
      Sequence of inverted children (same status, same children ticked). */
  lemma {:induction false} InvertedSelectorIsSequence<C(!new)>(cs: seq<Node>, ctx: C, leaves: Leaves<C>)
    ensures Tick(Inverter(Selector(cs)), ctx, leaves) == Tick(Sequence(InvertAll(cs)), ctx, leaves)
    decreases |cs|
  {
    if |cs| > 0 {
      var (s, ctx') := Tick(cs[0], ctx, leaves);
      var ics := InvertAll(cs);
      assert ics[0] == Inverter(cs[0]);
      assert ics[1..] == InvertAll(cs[1..]);
      assert Tick(ics[0], ctx, leaves) == (Invert(s), ctx');
      assert TickSequence(ics, ctx, leaves) ==
        if Invert(s) != Success then (Invert(s), ctx') else TickSequence(ics[1..], ctx', leaves);
      assert TickSelector(cs, ctx, leaves) ==
        if s != Failure then (s, ctx') else TickSelector(cs[1..], ctx', leaves);
      InvertedSelectorIsSequence(cs[1..], ctx', leaves);
      assert Tick(Inverter(Selector(cs[1..])), ctx', leaves) ==
        (Invert(TickSelector(cs[1..], ctx', leaves).0), TickSelector(cs[1..], ctx', leaves).1);
    } else {
      assert InvertAll(cs) == [];
      assert Tick(Selector(cs), ctx, leaves) == (Failure, ctx);
      assert Tick(Sequence([]), ctx, leaves) == (Success, ctx);
    }
  }

  /** A condition leaf answers SUCCESS exactly when its predicate holds and leaves
      the context alone; an action leaf answers what its action returns. */
  lemma LeafTicks<C(!new)>(k: nat, ctx: C, leaves: Leaves<C>)
    ensures (Tick(Condition(k), ctx, leaves).0 == Success) == leaves.test(k, ctx)
    ensures Tick(Condition(k), ctx, leaves).1 == ctx
    ensures Tick(Action(k), ctx, leaves) == leaves.act(k, ctx)
  {
  }

  /** The blackboard is a key/value map. */
  datatype Blackboard<V> = Blackboard(data: map<string, V>) {
    function Set(key: string, value: V): (r: Blackboard<V>)
      ensures r.Get(key) == Some(value)
      ensures forall k :: k != key ==> r.Get(k) == Get(k)
    {
      Blackboard(data[key := value])
    }

    function Get(key: string): (r: Option<V>)
      ensures r.Some? <==> Has(key)
      ensures r.Some? ==> r.value == data[key]
    {
      if key in data then Some(data[key]) else None
    }

    predicate Has(key: string)
    {
      key in data
    }

    function Delete(key: string): (r: Blackboard<V>)
      ensures !r.Has(key)
      ensures forall k :: k != key ==> r.Get(k) == Get(k)
    {
      Blackboard(data - {key})
    }
  }
}
