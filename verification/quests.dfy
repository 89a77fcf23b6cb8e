/** The server's quest rules: accepting a quest, advancing objectives,
    marking a quest completed and handing out its rewards. A player is the
    pair of its quest-state and inventory components, either of which may
    be missing. */
module Quests {
  import opened Wrappers
  import opened Items
  import Inventory

  datatype QuestStatus = Available | Active | Completed

  /** Objective types are compared by value, so they are kept as their
      string tags. */
  datatype Objective = Objective(kind: string, targetId: string, requiredAmount: real, currentAmount: real, description: string)

  datatype Reward = Reward(itemId: ItemId, amount: int)

  /** A quest; `rewards` is the optional reward item list. */
  datatype Quest = Quest(id: string, title: string, description: string, objectives: seq<Objective>,
    rewards: Option<seq<Reward>>, status: QuestStatus)

  datatype QuestState = QuestState(activeQuests: seq<Quest>, completedQuestIds: seq<string>)

  datatype Player = Player(quests: Option<QuestState>, inventory: Option<Inventory.Inventory>)

  function Ids(qs: seq<Quest>): (r: seq<string>)
    ensures |r| == |qs| && forall i :: 0 <= i < |qs| ==> r[i] == qs[i].id
  {
    seq(|qs|, i requires 0 <= i < |qs| => qs[i].id)
  }

  /** No quest id is active twice, and no active id is also completed. */
  ghost predicate Consistent(s: QuestState)
  {
    (forall i, j :: 0 <= i < j < |s.activeQuests| ==> s.activeQuests[i].id != s.activeQuests[j].id)
    && forall i :: 0 <= i < |s.activeQuests| ==> s.activeQuests[i].id !in s.completedQuestIds
  }

  /** `acceptQuest`: refused without a quest state or when the id is
      already active or completed; otherwise an active copy is appended. */
  function AcceptQuest(s: Option<QuestState>, quest: Quest): (r: (bool, Option<QuestState>))
    ensures r.0 <==> s.Some? && quest.id !in Ids(s.value.activeQuests) && quest.id !in s.value.completedQuestIds
    ensures !r.0 ==> r.1 == s
    ensures r.0 ==> r.1 == Some(s.value.(activeQuests := s.value.activeQuests + [quest.(status := Active)]))
  {
    if s.None? then (false, s)
    else if quest.id in Ids(s.value.activeQuests) || quest.id in s.value.completedQuestIds then (false, s)
    else (true, Some(s.value.(activeQuests := s.value.activeQuests + [quest.(status := Active)])))
  }

  lemma AcceptKeepsConsistent(s: QuestState, quest: Quest)
    requires Consistent(s)
    ensures Consistent(AcceptQuest(Some(s), quest).1.value)
  {
    if AcceptQuest(Some(s), quest).0 {
      var a := s.activeQuests + [quest.(status := Active)];
      forall i | 0 <= i < |s.activeQuests|
        ensures a[i].id != quest.id
      {
        assert Ids(s.activeQuests)[i] == a[i].id;
      }
    }
  }

  /** A quest cannot be accepted a second time while it is active or once
      it is completed. */
  lemma AcceptTwiceRefused(s: QuestState, quest: Quest)
    requires AcceptQuest(Some(s), quest).0
    ensures !AcceptQuest(AcceptQuest(Some(s), quest).1, quest).0
  {
    var a := AcceptQuest(Some(s), quest).1.value.activeQuests;
    assert Ids(a)[|a| - 1] == quest.id;
  }

  predicate Matches(o: Objective, kind: string, targetId: string)
  {
    o.kind == kind && o.targetId == targetId
  }

  /** `Math.min(requiredAmount, currentAmount + amount)` on one objective. */
  function Advance(o: Objective, amount: real): (r: Objective)
    ensures r == o.(currentAmount := r.currentAmount)
    ensures r.currentAmount <= o.requiredAmount && r.currentAmount <= o.currentAmount + amount
    ensures r.currentAmount == o.requiredAmount || r.currentAmount == o.currentAmount + amount
  {
    o.(currentAmount := if o.requiredAmount <= o.currentAmount + amount then o.requiredAmount else o.currentAmount + amount)
  }

  /** The objectives after progress: each matching one moves by `amount`
      but never past its required amount; the others keep their value. */
  function AdvanceAll(objs: seq<Objective>, kind: string, targetId: string, amount: real): (r: seq<Objective>)
    ensures |r| == |objs|
    ensures forall i :: 0 <= i < |objs| && Matches(objs[i], kind, targetId) ==>
      r[i] == objs[i].(currentAmount := r[i].currentAmount)
      && r[i].currentAmount <= objs[i].requiredAmount
      && (r[i].currentAmount == objs[i].requiredAmount || r[i].currentAmount == objs[i].currentAmount + amount)
      && r[i].currentAmount <= objs[i].currentAmount + amount
    ensures forall i :: 0 <= i < |objs| && !Matches(objs[i], kind, targetId) ==> r[i] == objs[i]
  {
    seq(|objs|, i requires 0 <= i < |objs| => if Matches(objs[i], kind, targetId) then Advance(objs[i], amount) else objs[i])
  }

  predicate AllDone(objs: seq<Objective>)
  {
    forall i :: 0 <= i < |objs| ==> objs[i].currentAmount >= objs[i].requiredAmount
  }

  predicate AnyMatch(objs: seq<Objective>, kind: string, targetId: string)
  {
    exists i :: 0 <= i < |objs| && Matches(objs[i], kind, targetId)
  }

  /** One quest's share of `updateProgress` together with the completion
      check that follows when one of its objectives matched. */
  function Progress(q: Quest, kind: string, targetId: string, amount: real): (r: Quest)
    ensures r.id == q.id && r.rewards == q.rewards && r.title == q.title
    ensures r.objectives == AdvanceAll(q.objectives, kind, targetId, amount)
    ensures r.status == Completed <==> q.status == Completed || (AnyMatch(q.objectives, kind, targetId) && AllDone(r.objectives))
    ensures r.status != Completed ==> r.status == q.status
  {
    var objs := AdvanceAll(q.objectives, kind, targetId, amount);
    if AnyMatch(q.objectives, kind, targetId) && AllDone(objs) && q.status != Completed then
      q.(objectives := objs, status := Completed)
    else q.(objectives := objs)
  }

  /** `updateProgress`: every active quest advances; nothing happens
      without a quest state. Ids, completed ids and order are kept. */
  function UpdateProgress(s: Option<QuestState>, kind: string, targetId: string, amount: real): (r: Option<QuestState>)
    ensures s.None? ==> r.None?
    ensures s.Some? ==>
      r.Some? && r.value.completedQuestIds == s.value.completedQuestIds
      && |r.value.activeQuests| == |s.value.activeQuests|
      && forall i :: 0 <= i < |s.value.activeQuests| ==>
        r.value.activeQuests[i] == Progress(s.value.activeQuests[i], kind, targetId, amount)
  {
    if s.None? then None
    else
      var a := s.value.activeQuests;
      Some(s.value.(activeQuests := seq(|a|, i requires 0 <= i < |a| => Progress(a[i], kind, targetId, amount))))
  }

  /** Progress never changes which quests are active or completed, and a
      completed quest stays completed. */
  lemma UpdateKeepsConsistent(s: QuestState, kind: string, targetId: string, amount: real)
    requires Consistent(s)
    ensures Consistent(UpdateProgress(Some(s), kind, targetId, amount).value)
    ensures forall i :: 0 <= i < |s.activeQuests| && s.activeQuests[i].status == Completed ==>
      UpdateProgress(Some(s), kind, targetId, amount).value.activeQuests[i].status == Completed
  {
  }

  /** Enough progress on the only objective of a quest completes it. */
  lemma SingleObjectiveCompletes(q: Quest, kind: string, targetId: string, amount: real)
    requires |q.objectives| == 1 && Matches(q.objectives[0], kind, targetId)
    requires q.objectives[0].currentAmount + amount >= q.objectives[0].requiredAmount
    ensures Progress(q, kind, targetId, amount).status == Completed
  {
    assert Matches(q.objectives[0], kind, targetId);
  }

  /** The first active quest with that id. */
  function FindQuest(qs: seq<Quest>, id: string): (r: Option<nat>)
    ensures r.None? <==> id !in Ids(qs)
    ensures r.Some? ==>
      r.value < |qs| && qs[r.value].id == id
      && forall j :: 0 <= j < r.value ==> qs[j].id != id
  {
    if |qs| == 0 then None
    else if qs[0].id == id then Some(0)
    else
      match FindQuest(qs[1..], id)
      case None =>
        assert Ids(qs) == [qs[0].id] + Ids(qs[1..]);
        None
      case Some(k) =>
        assert Ids(qs) == [qs[0].id] + Ids(qs[1..]);
        Some(k + 1)
  }

  /** Each reward is handed to `addItem` in turn; a reward that does not
      fit is dropped. */
  function GiveRewards(inv: Option<Inventory.Inventory>, rewards: seq<Reward>): (r: Option<Inventory.Inventory>)
    ensures inv.None? ==> r.None?
    ensures inv.Some? ==> r.Some? && r.value.maxSize == inv.value.maxSize
    decreases |rewards|
  {
    if |rewards| == 0 then inv
    else GiveRewards(Inventory.AddItem(inv, rewards[0].itemId, rewards[0].amount).1, rewards[1..])
  }

  /** The rewards go through `addItem` one by one, in list order: giving
      a list is giving its first part and then the rest, and giving one
      reward is one `addItem` call. */
  lemma {:induction false} GiveRewardsInOrder(inv: Option<Inventory.Inventory>, a: seq<Reward>, b: seq<Reward>)
    ensures GiveRewards(inv, a + b) == GiveRewards(GiveRewards(inv, a), b)
    ensures |a| == 1 ==> GiveRewards(inv, a) == Inventory.AddItem(inv, a[0].itemId, a[0].amount).1
    decreases |a|
  {
    if |a| == 0 {
      assert a + b == b;
    } else {
      assert (a + b)[0] == a[0];
      assert (a + b)[1..] == a[1..] + b;
      GiveRewardsInOrder(Inventory.AddItem(inv, a[0].itemId, a[0].amount).1, a[1..], b);
    }
  }

  /** Items that are not among the rewards keep their totals. */
  lemma {:induction false} GiveRewardsKeepsOthers(inv: Inventory.Inventory, rewards: seq<Reward>, id: ItemId)
    requires forall i :: 0 <= i < |rewards| ==> rewards[i].itemId != id
    ensures Inventory.Total(GiveRewards(Some(inv), rewards).value.items, id) == Inventory.Total(inv.items, id)
    decreases |rewards|
  {
    if |rewards| > 0 {
      var next := Inventory.AddItem(Some(inv), rewards[0].itemId, rewards[0].amount).1;
      assert next.Some?;
      assert Inventory.Total(next.value.items, id) == Inventory.Total(inv.items, id);
      GiveRewardsKeepsOthers(next.value, rewards[1..], id);
    }
  }

  /** The total amount the rewards grant of one item. */
  function RewardSum(rewards: seq<Reward>, id: ItemId): int
  {
    if |rewards| == 0 then 0
    else (if rewards[0].itemId == id then rewards[0].amount else 0) + RewardSum(rewards[1..], id)
  }

  /** When the inventory has a free slot for every reward and every reward
      is a known item, each reward arrives in full. */
  lemma {:induction false} RewardsArrive(inv: Inventory.Inventory, rewards: seq<Reward>, id: ItemId)
    requires |inv.items| + |rewards| <= inv.maxSize
    requires forall i :: 0 <= i < |rewards| ==> rewards[i].itemId in ITEMS
    ensures Inventory.Total(GiveRewards(Some(inv), rewards).value.items, id)
      == Inventory.Total(inv.items, id) + RewardSum(rewards, id)
    decreases |rewards|
  {
    if |rewards| > 0 {
      var next := Inventory.AddItem(Some(inv), rewards[0].itemId, rewards[0].amount);
      assert next.0;
      RewardsArrive(next.1.value, rewards[1..], id);
    }
  }




  /** `completeQuest`: refused without a quest state, for an id that is
      not active, or for a quest not yet completed. Otherwise the rewards
      are given, the id is recorded as completed and the quest leaves the
      active list. */
  function CompleteQuest(p: Player, questId: string): (r: (bool, Player))
    ensures r.0 <==>
      p.quests.Some? && FindQuest(p.quests.value.activeQuests, questId).Some?
      && p.quests.value.activeQuests[FindQuest(p.quests.value.activeQuests, questId).value].status == Completed
    ensures !r.0 ==> r.1 == p
    ensures r.0 ==>
      var a := p.quests.value.activeQuests;
      var i := FindQuest(a, questId).value;
      r.1.quests == Some(QuestState(a[..i] + a[i + 1..], p.quests.value.completedQuestIds + [questId]))
      && r.1.inventory == (if a[i].rewards.Some? then GiveRewards(p.inventory, a[i].rewards.value) else p.inventory)
  {
    if p.quests.None? then (false, p)
    else
      var s := p.quests.value;
      match FindQuest(s.activeQuests, questId)
      case None => (false, p)
      case Some(i) =>
        var q := s.activeQuests[i];
        if q.status != Completed then (false, p)
        else
          var inv := if q.rewards.Some? then GiveRewards(p.inventory, q.rewards.value) else p.inventory;
          (true, Player(Some(QuestState(s.activeQuests[..i] + s.activeQuests[i + 1..], s.completedQuestIds + [questId])), inv))
  }

  /** Completing a quest keeps the state consistent: the id is no longer
      active once it is recorded as completed. */
  lemma CompleteKeepsConsistent(p: Player, questId: string)
    requires p.quests.Some? && Consistent(p.quests.value)
    ensures Consistent(CompleteQuest(p, questId).1.quests.value)
  {
    var r := CompleteQuest(p, questId);
    if r.0 {
      var s := p.quests.value;
      RemoveCompleted(s.activeQuests, s.completedQuestIds, FindQuest(s.activeQuests, questId).value, questId);
    }
  }

  /** Moving the active quest at `i` to the completed ids keeps a state
      consistent. */
  lemma RemoveCompleted(a: seq<Quest>, completed: seq<string>, i: nat, questId: string)
    requires i < |a| && a[i].id == questId && Consistent(QuestState(a, completed))
    ensures Consistent(QuestState(a[..i] + a[i + 1..], completed + [questId]))
  {
    var b := a[..i] + a[i + 1..];
    forall k | 0 <= k < |b|
      ensures b[k].id != questId && b[k].id !in completed
    {
      if k < i {
        assert b[k] == a[k];
      } else {
        assert b[k] == a[k + 1];
      }
    }
    forall k, m | 0 <= k < m < |b|
      ensures b[k].id != b[m].id
    {
      var k' := if k < i then k else k + 1;
      var m' := if m < i then m else m + 1;
      assert b[k] == a[k'] && b[m] == a[m'];
    }
  }
}
