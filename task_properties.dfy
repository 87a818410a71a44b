/**
  What one run of the task cascade guarantees, and that a second run after
  `generate_policy_tasks` changes nothing and returns nothing.
*/
module TaskProperties {
  import opened Entities
  import opened TaskSpec

  /** A task is gathered exactly when an active layer owns it; inactive policies contribute nothing. */
  lemma {:induction false} GatherMembers(layers: seq<Option<Policy>>, t: Task)
    ensures t in Gather(layers) <==>
      exists j :: 0 <= j < |layers| && layers[j].Some? && layers[j].value.active && t in layers[j].value.tasks
    decreases |layers|
  {
    if layers != [] {
      var init := layers[..|layers| - 1];
      GatherMembers(init, t);
      if exists j :: 0 <= j < |layers| && layers[j].Some? && layers[j].value.active && t in layers[j].value.tasks {
        var j :| 0 <= j < |layers| && layers[j].Some? && layers[j].value.active && t in layers[j].value.tasks;
        if j < |layers| - 1 {
          assert init[j] == layers[j];
        }
      }
    }
  }

  /**
    The final template list: one task per pk, each the first candidate with
    its pk and with a supported script, and each from an active policy.
  */
  lemma FinalTasksSpec(supported: set<string>, ps: PolicyStack)
    ensures UniquePks(FinalTasks(supported, ps))
    ensures forall t :: t in FinalTasks(supported, ps) <==>
      t.scriptShell in supported && FirstCandidate(Gather(ps.Layers()), t)
    ensures forall t :: t in FinalTasks(supported, ps) ==>
      exists j :: 0 <= j < 4 && ps.Layers()[j].Some? && ps.Layers()[j].value.active && t in ps.Layers()[j].value.tasks
  {
    var cands := Gather(ps.Layers());
    DedupByPkUnique(cands);
    DedupByPkFirst(cands);
    SupportedOnlyMembers(DedupByPk(cands), supported);
    forall t | t in FinalTasks(supported, ps)
      ensures exists j :: 0 <= j < 4 && ps.Layers()[j].Some? && ps.Layers()[j].value.active && t in ps.Layers()[j].value.tasks
    {
      var i :| 0 <= i < |cands| && cands[i] == t && FirstOfPk(cands, i);
      GatherMembers(ps.Layers(), t);
    }
  }

  /**
    One run, row by row: the new table is every row after its `Fate`. No
    survivor whose template is live is left `pendingdeletion`, every survivor
    whose template is stale is `pendingdeletion`, and the returned templates
    are the final ones no managed task points to.
  */
  lemma TaskCascadeRows(s: seq<Task>, supported: set<string>, ps: PolicyStack)
    ensures var f := FinalTasks(supported, ps);
      var live := Pks(f);
      var stale := ManagedParents(s) - live;
      var out := Cascade(s, supported, ps);
      && out.tasks == Settle(s, stale, live)
      && (forall t :: t in out.tasks <==> exists u :: u in s && Fate(u, stale, live) == Some(t))
      && (forall t :: t in out.tasks && t.syncStatus == PendingDeletion && t.parentTask.Some? ==> t.parentTask.value !in live)
      && (forall t :: t in out.tasks && Retired(t, stale) ==> t.syncStatus == PendingDeletion)
      && (forall t :: t in out.toCreate <==> t in f && t.pk !in ManagedParents(s))
  {
    var f := FinalTasks(supported, ps);
    var live := Pks(f);
    var stale := ManagedParents(s) - live;
    RetireThenRevive(s, stale, live);
    SettleMembers(s, stale, live);
    NotMaterialisedMembers(f, ManagedParents(s));
  }

  /** A row's fate keeps its id, its template and whether it is managed. */
  lemma FateKeepsIdentity(u: Task, t: Task, stale: set<TaskId>, live: set<TaskId>)
    requires Fate(u, stale, live) == Some(t)
    ensures t.pk == u.pk && t.parentTask == u.parentTask && t.managedByPolicy == u.managedByPolicy
    ensures Retired(u, stale) ==> t.syncStatus == PendingDeletion
  {
  }

  /** The table after one run and the creation of what it returned. */
  function AfterGenerate(s: seq<Task>, n: TaskId, supported: set<string>, ps: PolicyStack): seq<Task> {
    var out := Cascade(s, supported, ps);
    MaterialiseAll(out.tasks, out.toCreate, n)
  }

  /**
    Where a row after the run comes from: the fate of a row of `s`, or a new
    `initial` managed copy of a live template.
  */
  lemma RowOrigin(s: seq<Task>, n: TaskId, supported: set<string>, ps: PolicyStack, t: Task)
    requires t in AfterGenerate(s, n, supported, ps)
    ensures var live := Pks(FinalTasks(supported, ps));
      var stale := ManagedParents(s) - live;
      || (exists u :: u in s && Fate(u, stale, live) == Some(t))
      || (t.managedByPolicy && t.parentTask.Some? && t.parentTask.value in live && t.syncStatus == Initial)
  {
    var f := FinalTasks(supported, ps);
    var live := Pks(f);
    var stale := ManagedParents(s) - live;
    var ts := NotMaterialised(f, ManagedParents(s));
    var r0 := Settle(s, stale, live);
    RetireThenRevive(s, stale, live);
    assert AfterGenerate(s, n, supported, ps) == MaterialiseAll(r0, ts, n);
    MaterialiseMembers(r0, ts, n, t);
    if t in r0 {
      SettleMembers(s, stale, live);
    } else {
      var j :| 0 <= j < |ts| && t == Materialised(ts[j], n + j);
      NotMaterialisedMembers(f, ManagedParents(s));
      assert ts[j] in ts;
    }
  }

  /** A template that is a managed row's parent after the run but not live was already stale in the run. */
  lemma StaleStaysStale(s: seq<Task>, n: TaskId, supported: set<string>, ps: PolicyStack)
    ensures var live := Pks(FinalTasks(supported, ps));
      ManagedParents(AfterGenerate(s, n, supported, ps)) - live <= ManagedParents(s) - live
  {
    var live := Pks(FinalTasks(supported, ps));
    var stale := ManagedParents(s) - live;
    var s1 := AfterGenerate(s, n, supported, ps);
    forall p | p in ManagedParents(s1) - live ensures p in ManagedParents(s) {
      var w :| w in s1 && w.managedByPolicy && w.parentTask == Some(p);
      RowOrigin(s, n, supported, ps, w);
      var u :| u in s && Fate(u, stale, live) == Some(w);
      FateKeepsIdentity(u, w, stale, live);
    }
  }

  /** One row after the run keeps its fate in a second run. */
  lemma RowSettled(s: seq<Task>, n: TaskId, supported: set<string>, ps: PolicyStack, t: Task)
    requires t in AfterGenerate(s, n, supported, ps)
    ensures var live := Pks(FinalTasks(supported, ps));
      Fate(t, ManagedParents(AfterGenerate(s, n, supported, ps)) - live, live) == Some(t)
  {
    var live := Pks(FinalTasks(supported, ps));
    var stale := ManagedParents(s) - live;
    var stale1 := ManagedParents(AfterGenerate(s, n, supported, ps)) - live;
    RowOrigin(s, n, supported, ps, t);
    StaleStaysStale(s, n, supported, ps);
    if exists u :: u in s && Fate(u, stale, live) == Some(t) {
      var u :| u in s && Fate(u, stale, live) == Some(t);
      FateKeepsIdentity(u, t, stale, live);
    }
  }

  /** Every row after the run keeps its fate in a second run. */
  lemma RowsSettled(s: seq<Task>, n: TaskId, supported: set<string>, ps: PolicyStack)
    ensures var live := Pks(FinalTasks(supported, ps));
      var s1 := AfterGenerate(s, n, supported, ps);
      forall t :: t in s1 ==> Fate(t, ManagedParents(s1) - live, live) == Some(t)
  {
    forall t | t in AfterGenerate(s, n, supported, ps)
      ensures Fate(t, ManagedParents(AfterGenerate(s, n, supported, ps)) - Pks(FinalTasks(supported, ps)), Pks(FinalTasks(supported, ps))) == Some(t)
    {
      RowSettled(s, n, supported, ps, t);
    }
  }

  /** A final template is the parent of a managed row after the run. */
  lemma TemplateMaterialised(s: seq<Task>, n: TaskId, supported: set<string>, ps: PolicyStack, t: Task)
    requires t in FinalTasks(supported, ps)
    ensures t.pk in ManagedParents(AfterGenerate(s, n, supported, ps))
  {
    var f := FinalTasks(supported, ps);
    var live := Pks(f);
    var stale := ManagedParents(s) - live;
    var ts := NotMaterialised(f, ManagedParents(s));
    var r0 := Settle(s, stale, live);
    RetireThenRevive(s, stale, live);
    assert AfterGenerate(s, n, supported, ps) == MaterialiseAll(r0, ts, n);
    if t.pk in ManagedParents(s) {
      var w :| w in s && w.managedByPolicy && w.parentTask == Some(t.pk);
      assert !Retired(w, stale);
      var w' := Revived(w, live);
      assert Fate(w, stale, live) == Some(w');
      SettleMembers(s, stale, live);
      MaterialiseMembers(r0, ts, n, w');
    } else {
      NotMaterialisedMembers(f, ManagedParents(s));
      assert t in ts;
      var j :| 0 <= j < |ts| && ts[j] == t;
      MaterialiseMembers(r0, ts, n, Materialised(t, n + j));
    }
  }

  /**
    Idempotence: after a cascade and the creation of what it returned, a
    second cascade over the same policies returns nothing and changes no row:
    tasks already `pendingdeletion` stay so, and nothing is revived or deleted.
  */
  lemma TaskCascadeIdempotent(s: seq<Task>, n: TaskId, supported: set<string>, ps: PolicyStack)
    ensures var s1 := AfterGenerate(s, n, supported, ps);
      Cascade(s1, supported, ps) == Outcome(s1, [])
  {
    var f := FinalTasks(supported, ps);
    var live := Pks(f);
    var s1 := AfterGenerate(s, n, supported, ps);
    RowsSettled(s, n, supported, ps);
    RetireThenRevive(s1, ManagedParents(s1) - live, live);
    SettleUnchanged(s1, ManagedParents(s1) - live, live);
    forall t | t in f ensures t.pk in ManagedParents(s1) {
      TemplateMaterialised(s, n, supported, ps, t);
    }
    NotMaterialisedMembers(f, ManagedParents(s1));
  }
}
