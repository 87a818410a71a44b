/**
  `Policy.cascade_policy_tasks` and `Policy.generate_policy_tasks` as
  imperative code over the agent's task table, proved equal to
  `TaskSpec.Cascade` and `TaskSpec.MaterialiseAll`.
*/
module TaskCascade {
  import opened Entities
  import opened TaskSpec

  /** The task rows of one agent (`agent.autotasks`), with the id the next inserted row gets. */
  class AgentTasks {
    var tasks: seq<Task>
    var nextPk: TaskId

    /** Row ids are unique and below the next id. */
    ghost predicate Valid()
      reads this
    {
      (forall t :: t in tasks ==> t.pk < nextPk) && UniquePks(tasks)
    }

    constructor (tasks: seq<Task>, nextPk: TaskId)
      requires forall t :: t in tasks ==> t.pk < nextPk
      requires UniquePks(tasks)
      ensures Valid()
      ensures this.tasks == tasks && this.nextPk == nextPk
    {
      this.tasks := tasks;
      this.nextPk := nextPk;
    }

    /** `task.delete()` on the row at position `k`. */
    method DeleteAt(k: nat)
      requires Valid() && k < |tasks|
      modifies this
      ensures Valid() && nextPk == old(nextPk)
      ensures tasks == old(tasks[..k] + tasks[k + 1..])
    {
      var rest := tasks[..k] + tasks[k + 1..];
      assert forall t :: t in rest ==> t in tasks;
      forall i, j | 0 <= i < j < |rest| ensures rest[i].pk != rest[j].pk {
        var i', j' := if i < k then i else i + 1, if j < k then j else j + 1;
        assert rest[i] == tasks[i'] && rest[j] == tasks[j'];
      }
      tasks := rest;
    }

    /** `task.sync_status = "pendingdeletion"; task.save()` on the row at position `k`. */
    method MarkPendingDeletionAt(k: nat)
      requires Valid() && k < |tasks|
      modifies this
      ensures Valid() && nextPk == old(nextPk)
      ensures tasks == old(tasks[k := tasks[k].(syncStatus := PendingDeletion)])
    {
      tasks := tasks[k := tasks[k].(syncStatus := PendingDeletion)];
    }

    /** `filter(sync_status="pendingdeletion").filter(parent_task__in=live).update(sync_status="notsynced")`. */
    method ReviveLive(live: set<TaskId>)
      requires Valid()
      modifies this
      ensures Valid() && nextPk == old(nextPk)
      ensures tasks == ReviveAll(old(tasks), live)
    {
      var revived := ReviveAll(tasks, live);
      assert forall i :: 0 <= i < |tasks| ==> revived[i].pk == tasks[i].pk;
      assert forall t :: t in revived ==> exists i :: 0 <= i < |tasks| && t.pk == tasks[i].pk;
      tasks := revived;
    }

    /** `create_policy_task`: inserts a managed copy of template `t` under the next row id. */
    method CreatePolicyTask(t: Task)
      requires Valid()
      modifies this
      ensures Valid() && nextPk == old(nextPk) + 1
      ensures tasks == old(tasks) + [Materialised(t, old(nextPk))]
    {
      tasks := tasks + [Materialised(t, nextPk)];
      nextPk := nextPk + 1;
    }
  }

  /** One policy's loop: appends each of `own` whose pk is not in the list yet. */
  method AppendNewTasks(ghost before: seq<Task>, acc: seq<Task>, own: seq<Task>) returns (tasks: seq<Task>)
    requires acc == DedupByPk(before)
    ensures tasks == DedupByPk(before + own)
  {
    tasks := acc;
    assert before + own[..0] == before;
    for k := 0 to |own|
      invariant tasks == DedupByPk(before + own[..k])
    {
      assert (before + own[..k + 1])[..|before| + k] == before + own[..k];
      if own[k].pk !in Pks(tasks) {
        tasks := tasks + [own[k]];
      }
    }
    assert own[..|own|] == own;
  }

  /** The tasks of the active policies in the order agent, site, client, default, each pk once. */
  method CollectPolicyTasks(ps: PolicyStack) returns (tasks: seq<Task>)
    ensures tasks == DedupByPk(Gather(ps.Layers()))
  {
    var layers := ps.Layers();
    tasks := [];
    for j := 0 to 4
      invariant tasks == DedupByPk(Gather(layers[..j]))
    {
      assert layers[..j + 1][..j] == layers[..j];
      var layer := layers[j];
      if layer.Some? && layer.value.active {
        tasks := AppendNewTasks(Gather(layers[..j]), tasks, layer.value.tasks);
      } else {
        assert Gather(layers[..j]) + [] == Gather(layers[..j]);
      }
    }
    assert layers[..4] == layers;
  }

  /**
    The body of the retirement loop on the row at position `k`: deletes it
    when it is stale and still `initial`, marks it `pendingdeletion` when it
    is stale otherwise, and returns the position of the next row.
  */
  method RetireRowAt(store: AgentTasks, k: nat, stale: set<TaskId>) returns (next: nat)
    requires store.Valid() && k < |store.tasks|
    modifies store
    ensures store.Valid() && store.nextPk == old(store.nextPk)
    ensures store.tasks == old(store.tasks[..k]) + RetireOne(old(store.tasks[k]), stale) + old(store.tasks[k + 1..])
    ensures next == k + |RetireOne(old(store.tasks[k]), stale)|
  {
    var task := store.tasks[k];
    if Retired(task, stale) {
      if task.syncStatus == Initial {
        store.DeleteAt(k);
        next := k;
      } else {
        store.MarkPendingDeletionAt(k);
        next := k + 1;
      }
    } else {
      next := k + 1;
    }
  }

  /** One more row through the retirement loop, stated on the table the loop works on. */
  lemma RetireStep(rows: seq<Task>, i: nat, stale: set<TaskId>, table: seq<Task>)
    requires i < |rows| && table == RetireAll(rows[..i], stale) + rows[i..]
    ensures var k := |RetireAll(rows[..i], stale)|;
      && k < |table| && table[k] == rows[i]
      && table[..k] + RetireOne(table[k], stale) + table[k + 1..] == RetireAll(rows[..i + 1], stale) + rows[i + 1..]
  {
    assert rows[..i + 1][..i] == rows[..i];
    var done := RetireAll(rows[..i], stale);
    assert table[..|done|] == done;
    assert table[|done| + 1..] == rows[i + 1..];
  }

  /**
    The retirement loop: every row whose template is in `stale` is deleted
    while still `initial` and marked `pendingdeletion` otherwise.
  */
  method RetireStaleTasks(store: AgentTasks, stale: set<TaskId>)
    requires store.Valid()
    modifies store
    ensures store.Valid() && store.nextPk == old(store.nextPk)
    ensures store.tasks == RetireAll(old(store.tasks), stale)
  {
    var rows := store.tasks;
    var k := 0;
    for i := 0 to |rows|
      invariant store.Valid() && store.nextPk == old(store.nextPk)
      invariant store.tasks == RetireAll(rows[..i], stale) + rows[i..]
      invariant k == |RetireAll(rows[..i], stale)|
    {
      RetireStep(rows, i, stale, store.tasks);
      k := RetireRowAt(store, k, stale);
    }
    assert rows[..|rows|] == rows;
  }

  /**
    Resolves the agent's tasks against its policy stack `ps`: retires the
    tasks whose template fell out, revives the `pendingdeletion` tasks whose
    template is back, and returns the templates still to create.
  */
  method CascadePolicyTasks(store: AgentTasks, supported: set<string>, ps: PolicyStack)
    returns (toCreate: seq<Task>)
    requires store.Valid()
    modifies store
    ensures store.Valid() && store.nextPk == old(store.nextPk)
    ensures store.tasks == Cascade(old(store.tasks), supported, ps).tasks
    ensures toCreate == Cascade(old(store.tasks), supported, ps).toCreate
  {
    var parentPks := ManagedParents(store.tasks);
    var tasks := CollectPolicyTasks(ps);
    tasks := SupportedOnly(tasks, supported);
    RetireStaleTasks(store, parentPks - Pks(tasks));
    store.ReviveLive(Pks(tasks));
    toCreate := NotMaterialised(tasks, parentPks);
  }

  /** `task.create_policy_task(agent)` for every template of `templates`, in order. */
  method CreatePolicyTasks(store: AgentTasks, templates: seq<Task>)
    requires store.Valid()
    modifies store
    ensures store.Valid()
    ensures store.tasks == MaterialiseAll(old(store.tasks), templates, old(store.nextPk))
    ensures store.nextPk == old(store.nextPk) + |templates|
  {
    for i := 0 to |templates|
      invariant store.Valid()
      invariant store.nextPk == old(store.nextPk) + i
      invariant store.tasks == MaterialiseAll(old(store.tasks), templates[..i], old(store.nextPk))
    {
      MaterialiseSnoc(old(store.tasks), templates, i, old(store.nextPk));
      store.CreatePolicyTask(templates[i]);
    }
    assert templates[..|templates|] == templates;
  }

  /** Resolves the agent's tasks, then creates a managed copy of every template returned. */
  method GeneratePolicyTasks(store: AgentTasks, supported: set<string>, ps: PolicyStack)
    requires store.Valid()
    modifies store
    ensures store.Valid()
    ensures var out := Cascade(old(store.tasks), supported, ps);
      && store.tasks == MaterialiseAll(out.tasks, out.toCreate, old(store.nextPk))
      && store.nextPk == old(store.nextPk) + |out.toCreate|
  {
    var tasks := CascadePolicyTasks(store, supported, ps);
    CreatePolicyTasks(store, tasks);
  }
}
