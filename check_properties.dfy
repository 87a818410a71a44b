/**
  What one run of the check cascade guarantees: the shape of the returned
  list, which rows get the override flag, and which managed rows survive.
*/
module CheckProperties {
  import opened Entities
  import opened CheckSpec

  /** At most one check per deduplication key. */
  predicate UniqueKeys(s: seq<Check>) {
    forall i, j :: 0 <= i < j < |s| ==> KeyOf(s[i].kind) != KeyOf(s[j].kind)
  }

  /** Ordered diskspace, ping, cpuload, memory, winsvc, script, eventlog. */
  predicate SortedByType(s: seq<Check>) {
    forall i, j :: 0 <= i < j < |s| ==> Rank(s[i].kind) <= Rank(s[j].kind)
  }

  /** Every row of `s` belongs to agent `owner` and row ids are unique: the agent's check table. */
  predicate TableOf(s: seq<Check>, owner: AgentId) {
    (forall c :: c in s ==> c.agent == Some(owner)) && UniquePks(s)
  }

  /** Policy checks are templates: they belong to no agent. */
  predicate TemplatesOnly(ps: PolicyStack) {
    forall j, c :: 0 <= j < 4 && ps.Layers()[j].Some? && c in ps.Layers()[j].value.checks ==> c.agent.None?
  }

  lemma {:induction false} OfRankUniqueKeys(s: seq<Check>, r: nat)
    requires UniqueKeys(s)
    ensures UniqueKeys(OfRank(s, r))
    decreases |s|
  {
    if s != [] {
      var init := s[..|s| - 1];
      var last := s[|s| - 1];
      assert UniqueKeys(init);
      OfRankUniqueKeys(init, r);
      OfRankMembers(init, r);
      forall c | c in OfRank(init, r) ensures KeyOf(c.kind) != KeyOf(last.kind) {
        var i :| 0 <= i < |init| && init[i] == c;
        assert s[i] == c;
      }
    }
  }

  /** Two lists with unique keys and no key in common concatenate to one with unique keys. */
  lemma ConcatUniqueKeys(a: seq<Check>, b: seq<Check>)
    requires UniqueKeys(a) && UniqueKeys(b)
    requires forall c, d :: c in a && d in b ==> KeyOf(c.kind) != KeyOf(d.kind)
    ensures UniqueKeys(a + b)
  {
    var e := a + b;
    forall i, j | 0 <= i < j < |e| ensures KeyOf(e[i].kind) != KeyOf(e[j].kind) {
      if j < |a| {
        assert e[i] == a[i] && e[j] == a[j];
      } else if i < |a| {
        assert e[i] == a[i] && a[i] in a;
        assert e[j] == b[j - |a|] && b[j - |a|] in b;
      } else {
        assert e[i] == b[i - |a|] && e[j] == b[j - |a|];
      }
    }
  }

  lemma {:induction false} BucketsUniqueKeys(s: seq<Check>, r: nat)
    requires r <= 7 && UniqueKeys(s)
    ensures UniqueKeys(Buckets(s, r))
    decreases 7 - r
  {
    if r < 7 {
      BucketsUniqueKeys(s, r + 1);
      OfRankUniqueKeys(s, r);
      OfRankMembers(s, r);
      BucketsSorted(s, r + 1);
      var o, rest := OfRank(s, r), Buckets(s, r + 1);
      forall c, d | c in o && d in rest ensures KeyOf(c.kind) != KeyOf(d.kind) {
        assert Rank(c.kind) < Rank(d.kind);
      }
      ConcatUniqueKeys(o, rest);
    }
  }

  lemma {:induction false} NotMaterialisedKeepsShape(f: seq<Check>, prior: set<CheckId>)
    requires UniqueKeys(f) && SortedByType(f)
    ensures UniqueKeys(NotMaterialised(f, prior)) && SortedByType(NotMaterialised(f, prior))
    decreases |f|
  {
    if f != [] {
      var init := f[..|f| - 1];
      var last := f[|f| - 1];
      assert UniqueKeys(init) && SortedByType(init);
      NotMaterialisedKeepsShape(init, prior);
      NotMaterialisedMembers(init, prior);
      forall c | c in NotMaterialised(init, prior)
        ensures KeyOf(c.kind) != KeyOf(last.kind) && Rank(c.kind) <= Rank(last.kind)
      {
        var i :| 0 <= i < |init| && init[i] == c;
        assert f[i] == c;
      }
      var a := NotMaterialised(init, prior);
      var b := NotMaterialised(f, prior);
      assert b == a + (if last.pk in prior then [] else [last]);
      forall i, j | 0 <= i < j < |b|
        ensures KeyOf(b[i].kind) != KeyOf(b[j].kind) && Rank(b[i].kind) <= Rank(b[j].kind)
      {
        if j == |a| {
          assert b[i] == a[i] && a[i] in a && b[j] == last;
        } else {
          assert b[i] == a[i] && b[j] == a[j];
        }
      }
    }
  }

  /**
    The final list holds exactly the accepted templates, one per key, each
    passing its platform gate, in type order; the returned list is the part
    of it that no managed check points to yet, in the same order.
  */
  lemma ReturnedChecks(s: seq<Check>, plat: string, supported: set<string>, ps: PolicyStack)
    ensures var res := Resolve(Candidates(s, ps), plat, supported);
      var f := FinalList(s, plat, supported, ps);
      var out := Cascade(s, plat, supported, ps);
      && (forall c :: c in f <==> c in res.accepted)
      && (forall c :: c in f ==> c.agent.None? && Applies(c.kind, plat, supported))
      && UniqueKeys(f) && SortedByType(f)
      && (forall c :: c in out.toCreate <==> c in f && c.pk !in ManagedParents(s))
      && UniqueKeys(out.toCreate) && SortedByType(out.toCreate)
  {
    var res := Resolve(Candidates(s, ps), plat, supported);
    AcceptedChecks(Candidates(s, ps), plat, supported);
    InTypeOrderSpec(res.accepted);
    var f := InTypeOrder(res.accepted);
    forall c ensures c in f <==> c in res.accepted {
      assert c in f <==> c in multiset(f);
    }
    BucketsUniqueKeys(res.accepted, 0);
    NotMaterialisedKeepsShape(f, ManagedParents(s));
    NotMaterialisedMembers(f, ManagedParents(s));
  }

  /** Direct checks are never returned for creation: everything returned is a template. */
  lemma DirectChecksNeverReturned(s: seq<Check>, owner: AgentId, plat: string, supported: set<string>, ps: PolicyStack)
    requires TableOf(s, owner)
    ensures forall c :: c in Cascade(s, plat, supported, ps).toCreate ==> c.agent.None? && c !in s
  {
    ReturnedChecks(s, plat, supported, ps);
  }

  /** Any candidate that belongs to an agent is one of the agent's own direct checks. */
  lemma OwnedCandidateIsDirect(s: seq<Check>, ps: PolicyStack, c: Check)
    requires TemplatesOnly(ps) && c in Candidates(s, ps) && c.agent.Some?
    ensures c in s && !c.managedByPolicy
  {
    CandidateSources(s, ps, c);
  }

  /** The flagged pks are row ids of the agent's own direct checks. */
  lemma OverriddenAreDirect(s: seq<Check>, plat: string, supported: set<string>, ps: PolicyStack)
    requires TemplatesOnly(ps)
    ensures forall pk :: pk in Resolve(Candidates(s, ps), plat, supported).overridden ==>
      exists c :: c in s && !c.managedByPolicy && c.pk == pk
  {
    var cands := Candidates(s, ps);
    OverriddenExactly(cands, plat, supported);
    forall pk | pk in Resolve(cands, plat, supported).overridden
      ensures exists c :: c in s && !c.managedByPolicy && c.pk == pk
    {
      var i :| 0 <= i < |cands| && cands[i].pk == pk && cands[i].agent.Some?
               && Applies(cands[i].kind, plat, supported) && !FirstOfKey(cands, i, plat, supported);
      OwnedCandidateIsDirect(s, ps, cands[i]);
    }
  }

  /**
    The override flag: only direct checks change, and only by the flag; a
    direct row ends up flagged iff it was flagged before or it is a candidate
    whose key an earlier applicable candidate already took.
  */
  lemma OverrideFlags(s: seq<Check>, owner: AgentId, plat: string, supported: set<string>, ps: PolicyStack)
    requires TableOf(s, owner) && TemplatesOnly(ps)
    ensures var cands := Candidates(s, ps);
      var m := MarkOverridden(s, Resolve(cands, plat, supported).overridden);
      && |m| == |s|
      && (forall k :: 0 <= k < |s| && m[k] != s[k] ==>
            !s[k].managedByPolicy && m[k] == s[k].(overridenByPolicy := true))
      && (forall k :: 0 <= k < |s| && !s[k].managedByPolicy ==>
            (m[k].overridenByPolicy <==>
              s[k].overridenByPolicy ||
              exists i :: 0 <= i < |cands| && cands[i] == s[k]
                          && Applies(s[k].kind, plat, supported) && !FirstOfKey(cands, i, plat, supported)))
  {
    var cands := Candidates(s, ps);
    var o := Resolve(cands, plat, supported).overridden;
    var m := MarkOverridden(s, o);
    OverriddenExactly(cands, plat, supported);
    OverriddenAreDirect(s, plat, supported, ps);
    forall k | 0 <= k < |s| && m[k] != s[k]
      ensures !s[k].managedByPolicy && m[k] == s[k].(overridenByPolicy := true)
    {
      var c :| c in s && !c.managedByPolicy && c.pk == s[k].pk;
      var k' :| 0 <= k' < |s| && s[k'] == c;
      assert k' == k;
    }
    forall k | 0 <= k < |s| && !s[k].managedByPolicy
      ensures m[k].overridenByPolicy <==>
        s[k].overridenByPolicy ||
        exists i :: 0 <= i < |cands| && cands[i] == s[k]
                    && Applies(s[k].kind, plat, supported) && !FirstOfKey(cands, i, plat, supported)
    {
      if s[k].pk in o {
        var i :| 0 <= i < |cands| && cands[i].pk == s[k].pk && cands[i].agent.Some?
                 && Applies(cands[i].kind, plat, supported) && !FirstOfKey(cands, i, plat, supported);
        OwnedCandidateIsDirect(s, ps, cands[i]);
        var k' :| 0 <= k' < |s| && s[k'] == cands[i];
        assert k' == k;
      }
      if exists i :: 0 <= i < |cands| && cands[i] == s[k]
                     && Applies(s[k].kind, plat, supported) && !FirstOfKey(cands, i, plat, supported)
      {
        var i :| 0 <= i < |cands| && cands[i] == s[k]
                 && Applies(s[k].kind, plat, supported) && !FirstOfKey(cands, i, plat, supported);
        assert s[k].agent.Some?;
      }
    }
  }

  /**
    Retirement: no managed check whose template is outside the final list
    survives, and every other row survives (with its flag possibly set).
  */
  lemma Retirement(s: seq<Check>, plat: string, supported: set<string>, ps: PolicyStack)
    ensures var f := FinalList(s, plat, supported, ps);
      var out := Cascade(s, plat, supported, ps);
      var m := MarkOverridden(s, Resolve(Candidates(s, ps), plat, supported).overridden);
      && (forall c :: c in out.checks && c.managedByPolicy && c.parentCheck.Some? ==> c.parentCheck.value in Pks(f))
      && (forall c :: c in out.checks ==> c in m)
      && (forall k :: 0 <= k < |s| && !(s[k].managedByPolicy && s[k].parentCheck.Some? && s[k].parentCheck.value !in Pks(f)) ==>
            m[k] in out.checks)
  {
    var f := FinalList(s, plat, supported, ps);
    var m := MarkOverridden(s, Resolve(Candidates(s, ps), plat, supported).overridden);
    MarkKeepsRows(s, Resolve(Candidates(s, ps), plat, supported).overridden);
    RetireStaleMembers(m, ManagedParents(s) - Pks(f));
    forall c | c in Cascade(s, plat, supported, ps).checks && c.managedByPolicy && c.parentCheck.Some?
      ensures c.parentCheck.value in Pks(f)
    {
      var k :| 0 <= k < |m| && m[k] == c;
      assert s[k].managedByPolicy && s[k] in s;
    }
  }
}
