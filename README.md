# Policy cascade of tacticalrmm automation

A model of the policy engine of tacticalrmm's `automation` app: the `Policy`
class of `api/tacticalrmm/automation/models.py`. The model has three parts.

- **Scope**: which agents a policy reaches. This is `is_agent_excluded`,
  `get_related` and `related_agents`, modelled as pure functions over one
  snapshot of agents, sites and clients (`scope.dfy`).
- **Check cascade**: `cascade_policy_checks` and `generate_policy_checks`
  (`check_*.dfy`).
  - The candidates come in a fixed order: checks of enforced policies, then
    the agent's own checks, then checks of non-enforced policies.
  - They are deduplicated per check type under the platform gate.
  - An agent's own check that loses to an earlier candidate is flagged
    `overriden_by_policy`.
  - The accepted templates are ordered by check type.
  - Managed checks whose template fell out are deleted.
  - The templates no managed check points to are returned for creation.
- **Task cascade**: `cascade_policy_tasks` and `generate_policy_tasks`
  (`task_*.dfy`).
  - The tasks of the active policies are deduplicated by pk and filtered by
    script shell.
  - A task whose template fell out is deleted while still `initial` and
    set to `pendingdeletion` otherwise.
  - A `pendingdeletion` task whose template is back becomes `notsynced`.
  - The templates not yet materialised are returned.

The agent's check and task tables are the fields of the classes
`CheckCascade.AgentChecks` and `TaskCascade.AgentTasks`. Each cascade is an
imperative method over its table, proved equal to a specification function
(`CheckSpec.Cascade`, `TaskSpec.Cascade`). The lemmas are about those
functions:
- deduplication by first occurrence;
- the permutation and the ordering of the type sort;
- exactly which rows are flagged, retired or revived;
- what is returned;
- idempotence: a second cascade after `generate_*` returns nothing and
  changes no row.

The collaborators are parameters:
- `agent.get_agent_policies()` is a `PolicyStack` of four optional
  policies: agent, site, client and default.
- `agent.plat` is a string.
- `agent.is_supported_script` is membership in a set of shells.
- `create_policy_check` / `create_policy_task` append a managed copy of the
  template under the table's next autoincrement id. A task copy starts
  `initial`.

In these places the model follows the code as written:
- **Exclusion does not always win.** Only the explicit path of
  `get_related` subtracts all three exclusion sets. The site path does not
  subtract `excluded_agents`. The client path subtracts neither
  `excluded_agents` nor `excluded_sites`.
  `PolicyScope.ExcludedAgentReachedThroughSite` exhibits an excluded agent
  that is still reached.
- **Checks have no pending deletion and no revival.** A managed check whose
  template fell out is deleted at once, whatever its sync state. Only tasks
  go through `pendingdeletion` and revival.
- **Task retirement looks at every row.** The task retirement query filters
  on `parent_task__in` only. Any row whose parent is stale is retired,
  managed or not.
- **Ping is not gated.** A ping check applies on every platform.
- **Null parents never match.** A Django `__in` filter never matches a null
  parent. A managed row without a parent is therefore never retired or
  revived, and `ManagedParents` leaves nulls out.

## Model

| member | source | states |
|---|---|---|
| PolicyScope.IsAgentExcluded | api/tacticalrmm/automation/models.py:68-73 | for an agent assigned the policy, it is excluded exactly when the explicit path does not reach it; an excluded agent is never reached explicitly, for either monitoring type |
| PolicyScope.GetRelated | api/tacticalrmm/automation/models.py:78-124 | the agents reached have the requested monitoring type; an agent that blocks inheritance is reached only when it is explicitly assigned and not excluded; no reached agent's client is excluded; every assigned, non-excluded agent of the type is reached |
| PolicyScope.RelatedAgents | api/tacticalrmm/automation/models.py:75-76 | an agent is related exactly when `get_related` for its own monitoring type reaches it |
| PolicyScope.ExplicitPathDropsExactlyExcluded | api/tacticalrmm/automation/models.py:79-86 | for an assigned agent of the type, the three `exclude` filters drop it exactly when `is_agent_excluded` holds |
| PolicyScope.ExcludedSiteOnlyViaClient | api/tacticalrmm/automation/models.py:78-124 | an agent whose site is excluded is reached only through its client, and neither it nor its site blocks inheritance |
| PolicyScope.ExcludedAgentOnlyInherited | api/tacticalrmm/automation/models.py:78-124 | an agent in `excluded_agents` is reached only through its site or client, never explicitly |
| PolicyScope.SitePath | api/tacticalrmm/automation/models.py:97-109 | a non-blocking agent of an assigned, non-excluded site is reached when its client is neither assigned nor excluded |
| PolicyScope.SitePathConditions | api/tacticalrmm/automation/models.py:97-109 | an agent reached neither explicitly nor through its client satisfies every condition of the site path |
| PolicyScope.ClientPath | api/tacticalrmm/automation/models.py:111-119 | a non-blocking agent under a non-blocking site of an assigned, non-excluded client is reached |
| PolicyScope.BlockingSiteShutsClientPath | api/tacticalrmm/automation/models.py:111-119 | an agent whose site blocks inheritance is reached only explicitly or through its site |
| PolicyScope.ExcludedAgentReachedThroughSite | api/tacticalrmm/automation/models.py:97-109 | there is an excluded agent that the policy still reaches, through its site |
| CheckCascade.CollectPolicyChecks | api/tacticalrmm/automation/models.py:201-236 | the two lists are the checks of the active enforced layers and of the active non-enforced layers, in the order agent, site, client, default |
| CheckSpec.KeyOf | api/tacticalrmm/automation/models.py:260-329 | the deduplication key keeps the check type, so checks of different types never share a key |
| CheckSpec.SameKeyExactly | api/tacticalrmm/automation/models.py:260-329 | two checks share a key exactly when they have the same type and the same disk, host, service name, script id or (log name, event id); cpuload and memory have one key each; a script's shell plays no part |
| CheckSpec.Applies | api/tacticalrmm/automation/models.py:258-326 | a ping check passes on every platform; a script check passes exactly when its shell is supported, on windows too; every other check passes exactly on windows |
| CheckSpec.Rank | api/tacticalrmm/automation/models.py:336-344 | every check type has one of the seven positions of `final_list` |
| CheckSpec.GatherMembers | api/tacticalrmm/automation/models.py:206-236 | a check is in a group exactly when an active layer of that group owns it |
| CheckSpec.DirectChecksMembers | api/tacticalrmm/automation/models.py:191 | the agent's own checks are exactly its rows not managed by a policy |
| CheckSpec.CandidateSources | api/tacticalrmm/automation/models.py:257 | every candidate is one of the agent's own checks or a check of an active policy |
| CheckSpec.SeenKeys | api/tacticalrmm/automation/models.py:256-334 | the keys seen after the loop are exactly the keys of the candidates that pass the platform gate |
| CheckSpec.SeenBefore | api/tacticalrmm/automation/models.py:256-334 | a candidate's key was seen before it exactly when it is not the first of its key |
| CheckSpec.AcceptedChecks | api/tacticalrmm/automation/models.py:256-334 | every accepted check is a template that passes the gate and is the first candidate of its key; accepted checks have pairwise distinct keys |
| CheckSpec.FirstOccurrenceWins | api/tacticalrmm/automation/models.py:256-334 | a template that is the first applicable candidate of its key is accepted, and it is the only accepted check with that key |
| CheckSpec.OverriddenExactly | api/tacticalrmm/automation/models.py:265-267 | a pk is flagged overridden exactly when it belongs to an agent check that passes the gate and is not the first of its key |
| CheckSpec.OfRankMembers | api/tacticalrmm/automation/models.py:248-254 | a type bucket holds exactly the checks of that type |
| CheckSpec.OfRankSnoc | api/tacticalrmm/automation/models.py:248-264 | one more accepted check joins the bucket of its own type and no other |
| CheckSpec.BucketsSorted | api/tacticalrmm/automation/models.py:336-344 | the concatenated buckets are ordered by check type |
| CheckSpec.BucketsPermutation | api/tacticalrmm/automation/models.py:336-344 | the concatenated buckets are a permutation of the accepted checks |
| CheckSpec.InTypeOrderSpec | api/tacticalrmm/automation/models.py:336-344 | `final_list` is a permutation of the accepted checks, sorted by type, and keeps the order within each type |
| CheckSpec.MarkTwice | api/tacticalrmm/automation/models.py:265-267 | flagging one set of pks and then another is flagging their union |
| CheckSpec.MarkKeepsRows | api/tacticalrmm/automation/models.py:265-267 | flagging keeps every row and changes only its override flag |
| CheckSpec.RetireStaleMembers | api/tacticalrmm/automation/models.py:346-354 | after the delete, the table holds exactly the rows that are not managed rows with a stale parent |
| CheckSpec.RetireStaleUnique | api/tacticalrmm/automation/models.py:346-354 | the delete keeps row ids unique |
| CheckSpec.NotMaterialisedMembers | api/tacticalrmm/automation/models.py:356-358 | a check is returned exactly when it is in `final_list` and no managed row points to it |
| CheckSpec.MaterialiseSnoc | api/tacticalrmm/automation/models.py:364-366 | creating one more template appends its managed copy under the next id |
| CheckCascade.AgentChecks.SaveOverridden | api/tacticalrmm/automation/models.py:265-267 | the row with that pk gets its override flag set; every other row and the next id stay the same |
| CheckCascade.AgentChecks.DeleteStale | api/tacticalrmm/automation/models.py:347-354 | the managed rows whose parent is stale are removed and the rest keep their order |
| CheckCascade.AgentChecks.CreatePolicyCheck | api/tacticalrmm/automation/models.py:366 | a managed copy of the template, owned by the agent, is appended under the next id |
| CheckCascade.CascadePolicyChecks | api/tacticalrmm/automation/models.py:188-358 | the new table and the returned list are those of the specification `CheckSpec.Cascade` |
| CheckCascade.CreatePolicyChecks | api/tacticalrmm/automation/models.py:364-366 | every returned template is materialised in order under consecutive ids |
| CheckCascade.GeneratePolicyChecks | api/tacticalrmm/automation/models.py:360-366 | the table is the cascade's table plus a managed copy of every returned template |
| CheckProperties.OfRankUniqueKeys | api/tacticalrmm/automation/models.py:248-264 | a type bucket of accepted checks has distinct keys |
| CheckProperties.ConcatUniqueKeys | api/tacticalrmm/automation/models.py:336-344 | joining lists with distinct keys and no key in common gives distinct keys |
| CheckProperties.BucketsUniqueKeys | api/tacticalrmm/automation/models.py:336-344 | `final_list` has distinct keys |
| CheckProperties.NotMaterialisedKeepsShape | api/tacticalrmm/automation/models.py:356-358 | the returned list keeps distinct keys and type order |
| CheckProperties.ReturnedChecks | api/tacticalrmm/automation/models.py:256-358 | `final_list` holds exactly the accepted checks, all templates passing the gate, with distinct keys and in type order; the returned checks are those of it no managed row points to, with the same shape |
| CheckProperties.DirectChecksNeverReturned | api/tacticalrmm/automation/models.py:262-264 | nothing returned for creation belongs to an agent or is a row of the agent's table |
| CheckProperties.OwnedCandidateIsDirect | api/tacticalrmm/automation/models.py:189-257 | when the policies hold only templates, a candidate that belongs to an agent is one of the agent's own checks |
| CheckProperties.OverriddenAreDirect | api/tacticalrmm/automation/models.py:265-267 | only the agent's own checks are ever flagged overridden |
| CheckProperties.OverrideFlags | api/tacticalrmm/automation/models.py:256-334 | flagging changes only the agent's own checks; such a check ends flagged exactly when it was flagged before or loses to an earlier candidate with its key |
| CheckProperties.Retirement | api/tacticalrmm/automation/models.py:346-354 | after the run every managed row with a parent points into `final_list`; no row is added; every row that is not a managed row with a stale parent is kept |
| CheckIdempotence.ResolveIgnoresFlags | api/tacticalrmm/automation/models.py:256-334 | candidate lists that differ only in the override flags of agent checks resolve alike |
| CheckIdempotence.DirectOfMark | api/tacticalrmm/automation/models.py:191 | flagging commutes with taking the agent's own checks |
| CheckIdempotence.DirectOfRetire | api/tacticalrmm/automation/models.py:346-354 | the delete keeps every one of the agent's own checks |
| CheckIdempotence.DirectOfMaterialise | api/tacticalrmm/automation/models.py:364-366 | creating managed copies adds none of the agent's own checks |
| CheckIdempotence.MaterialiseMembers | api/tacticalrmm/automation/models.py:364-366 | after creation the table holds the old rows and one managed copy per template, under consecutive ids |
| CheckIdempotence.SecondRunResolvesAlike | api/tacticalrmm/automation/models.py:256-334 | after one run and the creation of what it returned, the second run resolves the candidates as the first did |
| CheckIdempotence.FlagsAlreadySet | api/tacticalrmm/automation/models.py:265-267 | the second run's flags are already set |
| CheckIdempotence.NothingRetired | api/tacticalrmm/automation/models.py:346-354 | the second run deletes no row |
| CheckIdempotence.NothingLeftToCreate | api/tacticalrmm/automation/models.py:356-358 | when every template of `final_list` is already a parent, nothing is returned |
| CheckIdempotence.AllMaterialised | api/tacticalrmm/automation/models.py:356-366 | after the creation, every template of `final_list` is some managed row's parent |
| CheckIdempotence.CheckCascadeIdempotent | api/tacticalrmm/automation/models.py:188-366 | for an agent's table with unique ids below the next id, and policies holding only templates: after a cascade and the creation of what it returned, a second cascade returns nothing and leaves the table as it is |
| CheckExamples.DisksInTypeOrder | api/tacticalrmm/automation/models.py:336-344 | a list of diskspace checks is already in type order |
| CheckExamples.ExampleCandidates | api/tacticalrmm/automation/models.py:203-257 | with an enforced disk `C:` policy as client policy and a disk `C:`/`D:` policy as site policy, the candidates are the enforced `C:`, the agent's own `C:`, then the plain `C:` and `D:` |
| CheckExamples.ExampleResolve | api/tacticalrmm/automation/models.py:256-267 | on windows the enforced `C:` and the plain `D:` are accepted and the agent's own `C:` is flagged overridden |
| CheckExamples.ExampleFinalList | api/tacticalrmm/automation/models.py:336-344 | in that example `final_list` is the enforced `C:` followed by the plain `D:` |
| CheckExamples.ExampleTable | api/tacticalrmm/automation/models.py:265-267 | in that example the agent's own `C:` ends flagged and no row is deleted |
| CheckExamples.ExampleReturned | api/tacticalrmm/automation/models.py:356-358 | in that example both accepted templates are returned, since neither has a managed copy yet |
| CheckExamples.EnforcedDiskExample | api/tacticalrmm/automation/models.py:188-358 | for that stack the cascade flags the agent's `C:` check and returns the enforced `C:` and the plain `D:` |
| TaskCascade.AppendNewTasks | api/tacticalrmm/automation/models.py:147-149 | appending one policy's tasks whose pk is not yet in the list gives the deduplication of the longer candidate list |
| TaskCascade.CollectPolicyTasks | api/tacticalrmm/automation/models.py:146-162 | the list is the deduplication by pk of the active layers' tasks, in the order agent, site, client, default |
| TaskSpec.DedupByPkUnique | api/tacticalrmm/automation/models.py:146-162 | deduplication leaves one task per pk and loses no pk |
| TaskSpec.FirstCandidateSnoc | api/tacticalrmm/automation/models.py:146-162 | whether a task is the first candidate of its pk is decided by the candidates before it |
| TaskSpec.DedupByPkFirst | api/tacticalrmm/automation/models.py:146-162 | a task is kept exactly when it is the first candidate with its pk |
| TaskSpec.SupportedOnlyMembers | api/tacticalrmm/automation/models.py:164-165 | the filter keeps exactly the tasks whose script shell is supported, and keeps pks unique |
| TaskProperties.GatherMembers | api/tacticalrmm/automation/models.py:146-162 | a task is gathered exactly when an active layer owns it |
| TaskProperties.FinalTasksSpec | api/tacticalrmm/automation/models.py:146-165 | the final templates have unique pks; a task is one exactly when its shell is supported and it is the first candidate of its pk; each comes from an active policy |
| TaskSpec.ReviveSnoc | api/tacticalrmm/automation/models.py:181-184 | the bulk revival acts row by row |
| TaskSpec.RetireThenRevive | api/tacticalrmm/automation/models.py:167-184 | retirement followed by revival is every row after its `Fate`, when no template is both stale and live |
| TaskSpec.SettleMembers | api/tacticalrmm/automation/models.py:167-184 | a row is in the new table exactly when it is the fate of some old row |
| TaskSpec.SettleUnchanged | api/tacticalrmm/automation/models.py:167-184 | when every row's fate is itself, the table is unchanged |
| TaskSpec.NotMaterialisedMembers | api/tacticalrmm/automation/models.py:186 | a task is returned exactly when it is final and no managed row points to it; nothing is returned when every final task is a parent |
| TaskSpec.MaterialiseSnoc | api/tacticalrmm/automation/models.py:372-374 | creating one more template appends its managed `initial` copy under the next id |
| TaskSpec.MaterialiseMembers | api/tacticalrmm/automation/models.py:372-374 | after creation the table holds the old rows and one managed copy per template, under consecutive ids |
| TaskCascade.AgentTasks.DeleteAt | api/tacticalrmm/automation/models.py:175-176 | the row at that position is removed and the others keep their order |
| TaskCascade.AgentTasks.MarkPendingDeletionAt | api/tacticalrmm/automation/models.py:177-179 | the row at that position becomes `pendingdeletion` and nothing else changes |
| TaskCascade.AgentTasks.ReviveLive | api/tacticalrmm/automation/models.py:181-184 | every `pendingdeletion` row whose parent is live becomes `notsynced` and nothing else changes |
| TaskCascade.AgentTasks.CreatePolicyTask | api/tacticalrmm/automation/models.py:374 | a managed `initial` copy of the template is appended under the next id |
| TaskCascade.RetireRowAt | api/tacticalrmm/automation/models.py:175-179 | a stale row is deleted while `initial` and marked `pendingdeletion` otherwise; any other row is kept; the position returned is that of the next row |
| TaskCascade.RetireStep | api/tacticalrmm/automation/models.py:167-179 | handling the row at the loop's position extends the retired prefix by one row |
| TaskCascade.RetireStaleTasks | api/tacticalrmm/automation/models.py:167-179 | the table becomes the retirement of every row with a stale parent, in table order |
| TaskCascade.CascadePolicyTasks | api/tacticalrmm/automation/models.py:133-186 | the new table and the returned list are those of the specification `TaskSpec.Cascade` |
| TaskCascade.CreatePolicyTasks | api/tacticalrmm/automation/models.py:372-374 | every returned template is materialised in order under consecutive ids |
| TaskCascade.GeneratePolicyTasks | api/tacticalrmm/automation/models.py:368-374 | the table is the cascade's table plus a managed copy of every returned template |
| TaskProperties.TaskCascadeRows | api/tacticalrmm/automation/models.py:133-186 | the new table is every row after its fate; no `pendingdeletion` row keeps a live parent; every survivor with a stale parent is `pendingdeletion`; the returned tasks are the final ones no managed row points to |
| TaskProperties.FateKeepsIdentity | api/tacticalrmm/automation/models.py:167-184 | a row's fate keeps its id, parent and managed flag, and a stale row that survives is `pendingdeletion` |
| TaskProperties.RowOrigin | api/tacticalrmm/automation/models.py:167-186 | after a run and creation, each row is the fate of an old row or a new managed `initial` copy of a live template |
| TaskProperties.StaleStaysStale | api/tacticalrmm/automation/models.py:139-141 | after a run and creation, every managed parent that is not live was already a managed parent before |
| TaskProperties.RowSettled | api/tacticalrmm/automation/models.py:167-184 | a row after a run and creation is its own fate in a second run |
| TaskProperties.RowsSettled | api/tacticalrmm/automation/models.py:167-184 | every row after a run and creation is its own fate in a second run |
| TaskProperties.TemplateMaterialised | api/tacticalrmm/automation/models.py:186 | after a run and creation, every final template is some managed row's parent |
| TaskProperties.TaskCascadeIdempotent | api/tacticalrmm/automation/models.py:368-374 | after a cascade and the creation of what it returned, a second cascade returns nothing and changes no row |

## Left out

- `Policy.save` and `Policy.delete` are left out. They only queue background jobs (Celery) that run the cascade for affected agents.
- `Policy.serialize`, `is_default_server_policy` and `is_default_workstation_policy` are left out. They are audit and ORM lookups outside the cascade.
- The ORM and the database are left out. Tables are sequences in one consistent snapshot, and concurrent cascades for the same agent are not modelled.
- `agent.get_agent_policies` is not part of this model. Its result is the `PolicyStack` parameter, so inheritance blocking when the four policies are chosen is not modelled here.
- `agent.is_supported_script` is not part of this model. It is membership in a set of shells given by the caller.
- The bodies of `create_policy_check` and `create_policy_task` are not part of this model. They are modelled as appending a managed copy under the next autoincrement id, and the other fields they copy are left out.
- A task's script and a script check's script are assumed present. `task.script.shell`, `check.script.shell` and `check.script.id` are read as fields of the task or check; in the source a missing script aborts the cascade.
- Every `check.save()` and `task.save()` writes the row back as loaded with only that field changed; within one snapshot only that field differs, so the model tracks only it.
- `create_policy_check`/`create_policy_task` are assumed to succeed; in the source a failure aborts the rest of the loop, and the templates not yet created are returned again by the next run.
- The test module `api/tacticalrmm/tacticalrmm/tests.py` is not part of this model.
