/**
  `Policy.cascade_policy_checks` and `Policy.generate_policy_checks` as
  imperative code over the agent's check table, proved equal to
  `CheckSpec.Cascade` and `CheckSpec.MaterialiseAll`.
*/
module CheckCascade {
  import opened Entities
  import opened CheckSpec

  /** The check rows of one agent (`agent.agentchecks`), with the id the next inserted row gets. */
  class AgentChecks {
    const agentId: AgentId
    var checks: seq<Check>
    var nextPk: CheckId

    /** Every row belongs to this agent, row ids are unique and below the next id. */
    ghost predicate Valid()
      reads this
    {
      && (forall c :: c in checks ==> c.agent == Some(agentId) && c.pk < nextPk)
      && UniquePks(checks)
    }

    constructor (agentId: AgentId, checks: seq<Check>, nextPk: CheckId)
      requires forall c :: c in checks ==> c.agent == Some(agentId) && c.pk < nextPk
      requires UniquePks(checks)
      ensures Valid()
      ensures this.agentId == agentId && this.checks == checks && this.nextPk == nextPk
    {
      this.agentId := agentId;
      this.checks := checks;
      this.nextPk := nextPk;
    }

    /** `check.overriden_by_policy = True; check.save()` on the row with id `pk`. */
    method SaveOverridden(pk: CheckId)
      requires Valid()
      modifies this
      ensures Valid() && nextPk == old(nextPk)
      ensures checks == MarkOverridden(old(checks), {pk})
    {
      MarkKeepsRows(checks, {pk});
      checks := MarkOverridden(checks, {pk});
    }

    /** `filter(managed_by_policy=True, parent_check__in=stale).delete()`. */
    method DeleteStale(stale: set<CheckId>)
      requires Valid()
      modifies this
      ensures Valid() && nextPk == old(nextPk)
      ensures checks == RetireStale(old(checks), stale)
    {
      RetireStaleUnique(checks, stale);
      RetireStaleMembers(checks, stale);
      checks := RetireStale(checks, stale);
    }

    /** `create_policy_check`: inserts a managed copy of template `t` under the next row id. */
    method CreatePolicyCheck(t: Check)
      requires Valid()
      modifies this
      ensures Valid() && nextPk == old(nextPk) + 1
      ensures checks == old(checks) + [Materialised(t, agentId, old(nextPk))]
    {
      checks := checks + [Materialised(t, agentId, nextPk)];
      nextPk := nextPk + 1;
    }
  }

  /**
    The checks of the active policies, split into those of enforced policies
    and the rest; within each group the layers in order agent, site, client,
    default.
  */
  method CollectPolicyChecks(ps: PolicyStack) returns (enforcedChecks: seq<Check>, policyChecks: seq<Check>)
    ensures enforcedChecks == Gather(ps.Layers(), true)
    ensures policyChecks == Gather(ps.Layers(), false)
  {
    var layers := ps.Layers();
    enforcedChecks, policyChecks := [], [];
    for j := 0 to 4
      invariant enforcedChecks == Gather(layers[..j], true)
      invariant policyChecks == Gather(layers[..j], false)
    {
      assert layers[..j + 1][..j] == layers[..j];
      var layer := layers[j];
      if layer.Some? && layer.value.active {
        if layer.value.enforced {
          enforcedChecks := enforcedChecks + layer.value.checks;
        } else {
          policyChecks := policyChecks + layer.value.checks;
        }
      }
    }
    assert layers[..4] == layers;
  }

  /**
    Resolves the agent's checks against its policy stack `ps`: flags the
    agent's own checks that a policy check overrides, deletes managed checks
    whose template fell out, and returns the templates still to create.
  */
  method CascadePolicyChecks(store: AgentChecks, plat: string, supported: set<string>, ps: PolicyStack)
    returns (toCreate: seq<Check>)
    requires store.Valid()
    modifies store
    ensures store.Valid() && store.nextPk == old(store.nextPk)
    ensures store.checks == Cascade(old(store.checks), plat, supported, ps).checks
    ensures toCreate == Cascade(old(store.checks), plat, supported, ps).toCreate
  {
    var agentChecks := DirectChecks(store.checks);
    var parentPks := ManagedParents(store.checks);
    var enforcedChecks, policyChecks := CollectPolicyChecks(ps);
    var cands := enforcedChecks + agentChecks + policyChecks;
    var seen: set<Key> := {};
    var accepted: seq<Check> := [];
    ghost var overridden: set<CheckId> := {};
    for i := 0 to |cands|
      invariant store.Valid() && store.nextPk == old(store.nextPk)
      invariant Resolve(cands[..i], plat, supported) == Resolution(seen, accepted, overridden)
      invariant store.checks == MarkOverridden(old(store.checks), overridden)
    {
      assert cands[..i + 1][..i] == cands[..i];
      var check := cands[i];
      if Applies(check.kind, plat, supported) {
        var key := KeyOf(check.kind);
        if key !in seen {
          seen := seen + {key};
          if check.agent.None? {
            accepted := accepted + [check];
          }
        } else if check.agent.Some? {
          MarkTwice(old(store.checks), overridden, {check.pk});
          store.SaveOverridden(check.pk);
          overridden := overridden + {check.pk};
        }
      }
    }
    assert cands[..|cands|] == cands;

    var finalList := InTypeOrder(accepted);
    store.DeleteStale(parentPks - Pks(finalList));
    toCreate := NotMaterialised(finalList, parentPks);
  }

  /** `check.create_policy_check(agent)` for every template of `templates`, in order. */
  method CreatePolicyChecks(store: AgentChecks, templates: seq<Check>)
    requires store.Valid()
    modifies store
    ensures store.Valid()
    ensures store.checks == MaterialiseAll(old(store.checks), templates, store.agentId, old(store.nextPk))
    ensures store.nextPk == old(store.nextPk) + |templates|
  {
    for i := 0 to |templates|
      invariant store.Valid()
      invariant store.nextPk == old(store.nextPk) + i
      invariant store.checks == MaterialiseAll(old(store.checks), templates[..i], store.agentId, old(store.nextPk))
    {
      MaterialiseSnoc(old(store.checks), templates, i, store.agentId, old(store.nextPk));
      store.CreatePolicyCheck(templates[i]);
    }
    assert templates[..|templates|] == templates;
  }

  /** Resolves the agent's checks, then creates a managed copy of every template returned. */
  method GeneratePolicyChecks(store: AgentChecks, plat: string, supported: set<string>, ps: PolicyStack)
    requires store.Valid()
    modifies store
    ensures store.Valid()
    ensures var out := Cascade(old(store.checks), plat, supported, ps);
      && store.checks == MaterialiseAll(out.checks, out.toCreate, store.agentId, old(store.nextPk))
      && store.nextPk == old(store.nextPk) + |out.toCreate|
  {
    var checks := CascadePolicyChecks(store, plat, supported, ps);
    CreatePolicyChecks(store, checks);
  }
}
