/**
  The agent table: who exists, in what state, and with what budget.
 */
module Agents {
  import opened Wrappers
  import opened Capabilities

  const MAX_AGENTS: nat := 256
  const MAX_AGENT_NAME: nat := 63

  datatype AgentState = Initializing | Active | Blocked | Suspended | Terminated

  datatype ResourceBudget = ResourceBudget(
    memoryBytes: nat, computeTicks: nat, ioOps: nat, maxChildren: nat,
    usedMemory: nat, usedCompute: nat, usedIo: nat, currentChildren: nat)
  {
    predicate CanIo() {
      usedIo < ioOps
    }

    function RecordIo(): ResourceBudget {
      this.(usedIo := usedIo + 1)
    }
  }

  const DEFAULT_BUDGET: ResourceBudget := ResourceBudget(16 * 1024 * 1024, 1_000_000, 10_000, 4, 0, 0, 0, 0)

  datatype Agent = Agent(
    id: AgentId, name: string, state: AgentState, capabilities: seq<CapHandle>,
    budget: ResourceBudget, parent: Option<AgentId>, spawnTick: nat, maxLifetime: nat)

  datatype AgentError = MaxAgentsReached | AgentNotFound

  function NewAgent(id: AgentId, name: string, parent: Option<AgentId>, budget: ResourceBudget,
                    maxLifetime: nat, tick: nat): Agent
  {
    Agent(id, if |name| <= MAX_AGENT_NAME then name else name[..MAX_AGENT_NAME],
          Initializing, [], budget, parent, tick, maxLifetime)
  }

  predicate LifetimeOver(a: Agent, tick: nat) {
    a.maxLifetime > 0 && tick >= a.spawnTick + a.maxLifetime
  }

  /** Expired and not yet terminated. */
  predicate Overdue(a: Agent, tick: nat) {
    LifetimeOver(a, tick) && a.state != Terminated
  }

  // ----- The table as a list -----

  /** Ids rise along the list and stay below the next one to be given out. */
  ghost predicate Ordered(list: seq<Agent>, nextId: AgentId) {
    && (forall i, j | 0 <= i < j < |list| :: list[i].id < list[j].id)
    && (forall i | 0 <= i < |list| :: list[i].id < nextId)
  }

  ghost predicate Present(list: seq<Agent>, id: AgentId) {
    exists i :: 0 <= i < |list| && list[i].id == id
  }

  /** The list with the agents in `ids` terminated. */
  ghost function Terminate(list: seq<Agent>, ids: set<AgentId>): (r: seq<Agent>)
    ensures |r| == |list|
    ensures forall i | 0 <= i < |list| ::
      r[i] == if list[i].id in ids then list[i].(state := Terminated) else list[i]
  {
    seq(|list|, i requires 0 <= i < |list| => if list[i].id in ids then list[i].(state := Terminated) else list[i])
  }

  lemma TerminateOneMore(list: seq<Agent>, ids: set<AgentId>, id: AgentId)
    ensures Terminate(Terminate(list, ids), {id}) == Terminate(list, ids + {id})
    ensures Present(list, id) <==> Present(Terminate(list, ids), id)
  {
    if Present(list, id) {
      var i :| 0 <= i < |list| && list[i].id == id;
      assert Terminate(list, ids)[i].id == id;
    }
  }

  lemma TerminateNone(list: seq<Agent>)
    ensures Terminate(list, {}) == list
  {
  }

  ghost function OverdueIds(list: seq<Agent>, tick: nat): set<AgentId> {
    set i | 0 <= i < |list| && Overdue(list[i], tick) :: list[i].id
  }

  lemma OverdueIsPresent(list: seq<Agent>, id: AgentId, tick: nat)
    requires id in OverdueIds(list, tick)
    ensures Present(list, id)
  {
  }

  /** The agents that are not terminated, in order. */
  function Retained(list: seq<Agent>): seq<Agent> {
    if list == [] then []
    else Retained(list[..|list| - 1]) +
         if list[|list| - 1].state != Terminated then [list[|list| - 1]] else []
  }

  lemma {:induction false} RetainedMembers(list: seq<Agent>, a: Agent)
    ensures a in Retained(list) <==> a in list && a.state != Terminated
  {
    if list != [] {
      var init, last := list[..|list| - 1], list[|list| - 1];
      assert list == init + [last];
      RetainedMembers(init, a);
    }
  }

  lemma {:induction false} RetainedIsOrdered(list: seq<Agent>, nextId: AgentId)
    requires Ordered(list, nextId)
    ensures Ordered(Retained(list), nextId) && |Retained(list)| <= |list|
  {
    if list != [] {
      var init, last := list[..|list| - 1], list[|list| - 1];
      RetainedIsOrdered(init, last.id);
      forall a | a in Retained(init) ensures a.id < last.id {
        RetainedMembers(init, a);
      }
    }
  }

  lemma OneAgentPerId(list: seq<Agent>, nextId: AgentId, i: nat, j: nat)
    requires Ordered(list, nextId) && i < |list| && j < |list| && list[i].id == list[j].id
    ensures i == j
  {
  }

  /** The capability table after every listed agent has lost what it owns. */
  ghost function RevokeOwners(s: Slots, ids: set<AgentId>): Slots {
    Mark(s, HandlesOf(s, ids))
  }

  ghost function HandlesOf(s: Slots, ids: set<AgentId>): set<CapHandle> {
    set i | 0 <= i < |s| && s[i].owner in ids
  }

  lemma RevokeOneMoreOwner(s: Slots, ids: set<AgentId>, id: AgentId)
    ensures RevokeAllOn(RevokeOwners(s, ids), id) == RevokeOwners(s, ids + {id})
  {
    var t := RevokeOwners(s, ids);
    assert Select(t, |t|, OwnedBy(id)) == HandlesOf(s, {id});
    MarkTwice(s, HandlesOf(s, ids), HandlesOf(s, {id}));
    assert HandlesOf(s, ids) + HandlesOf(s, {id}) == HandlesOf(s, ids + {id});
  }

  lemma RevokeNoOwner(s: Slots)
    ensures RevokeOwners(s, {}) == s
  {
    NobodyBelowNothing(s);
    assert HandlesOf(s, {}) == {};
  }
}

/** The agent table, updated in place; killing an agent also reaches into the capability table. */
module AgentTables {
  import opened Wrappers
  import opened Capabilities
  import opened CapTables
  import opened Agents

  class AgentTable {
    var agents: seq<Agent>
    var totalSpawned: nat
    var nextAgentId: nat

    ghost predicate Valid()
      reads this
    {
      Ordered(agents, nextAgentId) && |agents| <= MAX_AGENTS
    }

    constructor ()
      ensures Valid() && agents == [] && nextAgentId == 1 && totalSpawned == 0
    {
      agents, totalSpawned, nextAgentId := [], 0, 1;
    }

    method Spawn(name: string, parent: Option<AgentId>, budget: ResourceBudget, maxLifetime: nat, tick: nat)
      returns (r: Result<AgentId, AgentError>)
      requires Valid()
      modifies this
      ensures Valid()
      ensures if |old(agents)| >= MAX_AGENTS
              then r == Err(MaxAgentsReached) && unchanged(this)
              else r == Ok(old(nextAgentId)) && nextAgentId == old(nextAgentId) + 1 &&
                   totalSpawned == old(totalSpawned) + 1 &&
                   agents == old(agents) + [NewAgent(old(nextAgentId), name, parent, budget, maxLifetime, tick)]
    {
      if |agents| >= MAX_AGENTS {
        return Err(MaxAgentsReached);
      }
      var agent := NewAgent(nextAgentId, name, parent, budget, maxLifetime, tick);
      nextAgentId := nextAgentId + 1;
      agents := agents + [agent];
      totalSpawned := totalSpawned + 1;
      r := Ok(agent.id);
    }

    /** The position of an agent, or the number of agents if it is not there. */
    method Find(id: AgentId) returns (at: nat)
      requires Valid()
      ensures at <= |agents| && (at < |agents| <==> Present(agents, id))
      ensures at < |agents| ==> agents[at].id == id
    {
      for i := 0 to |agents|
        invariant forall j | 0 <= j < i :: agents[j].id != id
      {
        if agents[i].id == id {
          return i;
        }
      }
      at := |agents|;
    }

    method Kill(id: AgentId, caps: CapTable) returns (r: Result<(), AgentError>)
      requires Valid() && caps.Valid()
      modifies this`agents, caps`activeCount, caps`slots, caps.entries
      ensures Valid() && caps.Valid()
      ensures if Present(old(agents), id)
              then r == Ok(()) && agents == Terminate(old(agents), {id}) && caps.slots == RevokeAllOn(old(caps.slots), id)
              else r == Err(AgentNotFound) && agents == old(agents) && caps.slots == old(caps.slots)
    {
      var at := Find(id);
      if at == |agents| {
        return Err(AgentNotFound);
      }
      forall i | 0 <= i < |agents| && agents[i].id == id ensures i == at {
        OneAgentPerId(agents, nextAgentId, i, at);
      }
      agents := agents[at := agents[at].(state := Terminated)];
      assert agents == Terminate(old(agents), {id});
      caps.RevokeAllForAgent(id);
      r := Ok(());
    }

    method ActiveCount() returns (n: nat)
      requires Valid()
      ensures n == |Retained(agents)|
    {
      n := 0;
      for i := 0 to |agents|
        invariant n == |Retained(agents[..i])|
      {
        assert agents[..i + 1][..i] == agents[..i];
        if agents[i].state != Terminated {
          n := n + 1;
        }
      }
      assert agents[..|agents|] == agents;
    }

    method Gc()
      requires Valid()
      modifies this`agents
      ensures Valid() && agents == Retained(old(agents))
    {
      RetainedIsOrdered(agents, nextAgentId);
      agents := Retained(agents);
    }

    /** Terminates exactly the overdue agents and revokes exactly what they own, with all its descendants. */
    method EnforceTimeouts(tick: nat, caps: CapTable)
      requires Valid() && caps.Valid()
      modifies this`agents, caps`activeCount, caps`slots, caps.entries
      ensures Valid() && caps.Valid()
      ensures agents == Terminate(old(agents), OverdueIds(old(agents), tick))
      ensures caps.slots == RevokeOwners(old(caps.slots), OverdueIds(old(agents), tick))
    {
      ghost var list, s := agents, caps.slots;
      var expired := CollectOverdue(tick);
      RevokeNoOwner(s);
      TerminateNone(list);
      for k := 0 to |expired|
        invariant Valid() && caps.Valid()
        invariant agents == Terminate(list, Elements(expired[..k]))
        invariant caps.slots == RevokeOwners(s, Elements(expired[..k]))
      {
        ghost var before := Elements(expired[..k]);
        ElementsGrow(expired, k);
        OverdueIsPresent(list, expired[k], tick);
        TerminateOneMore(list, before, expired[k]);
        RevokeOneMoreOwner(s, before, expired[k]);
        var _ := Kill(expired[k], caps);
      }
      assert expired[..|expired|] == expired;
    }

    method CollectOverdue(tick: nat) returns (ids: seq<AgentId>)
      requires Valid()
      ensures Elements(ids) == OverdueIds(agents, tick)
    {
      ids := [];
      for i := 0 to |agents|
        invariant forall id :: id in ids <==> exists j :: 0 <= j < i && Overdue(agents[j], tick) && agents[j].id == id
      {
        if Overdue(agents[i], tick) {
          ids := ids + [agents[i].id];
        }
      }
    }
  }
}
