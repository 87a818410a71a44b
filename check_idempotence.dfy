/**
  Re-running the check cascade converges: once `generate_policy_checks` has
  run, a second cascade with the same policies returns nothing to create and
  leaves the agent's check table as it is.
*/
module CheckIdempotence {
  import opened Entities
  import opened CheckSpec
  import opened CheckProperties

  /** `b` is `a` with, at most, other override flags on rows that belong to an agent. */
  predicate FlagVariant(a: seq<Check>, b: seq<Check>) {
    && |a| == |b|
    && forall i :: 0 <= i < |a| ==>
         b[i] == a[i].(overridenByPolicy := b[i].overridenByPolicy) && (a[i].agent.None? ==> b[i] == a[i])
  }

  /** The override flag plays no part in deduplication. */
  lemma {:induction false} ResolveIgnoresFlags(a: seq<Check>, b: seq<Check>, plat: string, supported: set<string>)
    requires FlagVariant(a, b)
    ensures Resolve(a, plat, supported) == Resolve(b, plat, supported)
    decreases |a|
  {
    if a != [] {
      var n := |a| - 1;
      assert FlagVariant(a[..n], b[..n]);
      ResolveIgnoresFlags(a[..n], b[..n], plat, supported);
    }
  }

  lemma FlagVariantConcat(e: seq<Check>, d: seq<Check>, d': seq<Check>, p: seq<Check>)
    requires FlagVariant(d, d')
    ensures FlagVariant(e + d + p, e + d' + p)
  {
    var a, b := e + d + p, e + d' + p;
    forall i | 0 <= i < |a|
      ensures b[i] == a[i].(overridenByPolicy := b[i].overridenByPolicy) && (a[i].agent.None? ==> b[i] == a[i])
    {
      if i < |e| {
        assert a[i] == e[i] && b[i] == e[i];
      } else if i < |e| + |d| {
        assert a[i] == d[i - |e|] && b[i] == d'[i - |e|];
      } else {
        assert a[i] == p[i - |e| - |d|] && b[i] == p[i - |e| - |d|];
      }
    }
  }

  lemma DirectSnoc(x: seq<Check>, y: Check)
    ensures DirectChecks(x + [y]) == DirectChecks(x) + (if y.managedByPolicy then [] else [y])
  {
    assert (x + [y])[..|x|] == x;
  }

  lemma {:induction false} DirectOfMark(s: seq<Check>, o: set<CheckId>)
    ensures DirectChecks(MarkOverridden(s, o)) == MarkOverridden(DirectChecks(s), o)
    decreases |s|
  {
    if s != [] {
      var init, last := s[..|s| - 1], s[|s| - 1];
      DirectOfMark(init, o);
      var mk := if last.pk in o then last.(overridenByPolicy := true) else last;
      assert MarkOverridden(s, o) == MarkOverridden(init, o) + [mk];
      DirectSnoc(MarkOverridden(init, o), mk);
      var d := DirectChecks(init);
      if last.managedByPolicy {
        assert d + [] == d;
      } else {
        assert MarkOverridden(d + [last], o) == MarkOverridden(d, o) + [mk];
      }
    }
  }

  lemma {:induction false} DirectOfRetire(s: seq<Check>, stale: set<CheckId>)
    ensures DirectChecks(RetireStale(s, stale)) == DirectChecks(s)
    decreases |s|
  {
    if s != [] {
      var init, last := s[..|s| - 1], s[|s| - 1];
      DirectOfRetire(init, stale);
      var r := RetireStale(init, stale);
      if Retired(last, stale) {
        assert RetireStale(s, stale) == r + [] == r;
        assert DirectChecks(s) == DirectChecks(init) + [] == DirectChecks(init);
      } else {
        assert RetireStale(s, stale) == r + [last];
        DirectSnoc(r, last);
      }
    }
  }

  lemma {:induction false} DirectOfMaterialise(s: seq<Check>, ts: seq<Check>, owner: AgentId, n: CheckId)
    ensures DirectChecks(MaterialiseAll(s, ts, owner, n)) == DirectChecks(s)
    decreases |ts|
  {
    if ts != [] {
      var init := ts[..|ts| - 1];
      DirectOfMaterialise(s, init, owner, n);
      DirectSnoc(MaterialiseAll(s, init, owner, n), Materialised(ts[|ts| - 1], owner, n + |ts| - 1));
    }
  }

  lemma {:induction false} MaterialiseMembers(s: seq<Check>, ts: seq<Check>, owner: AgentId, n: CheckId, c: Check)
    ensures c in MaterialiseAll(s, ts, owner, n) <==>
      c in s || exists i :: 0 <= i < |ts| && c == Materialised(ts[i], owner, n + i)
    decreases |ts|
  {
    if ts != [] {
      var init := ts[..|ts| - 1];
      MaterialiseMembers(s, init, owner, n, c);
      if exists i :: 0 <= i < |ts| && c == Materialised(ts[i], owner, n + i) {
        var i :| 0 <= i < |ts| && c == Materialised(ts[i], owner, n + i);
        if i < |init| {
          assert init[i] == ts[i];
        }
      }
    }
  }

  lemma {:induction false} RetireNothing(s: seq<Check>, stale: set<CheckId>)
    requires forall c :: c in s ==> !Retired(c, stale)
    ensures RetireStale(s, stale) == s
    decreases |s|
  {
    if s != [] {
      var init := s[..|s| - 1];
      RetireNothing(init, stale);
      assert s == init + [s[|s| - 1]];
    }
  }

  /** The table a cascade leaves behind: `s` flagged with `o`, stale rows deleted, copies of `ts` added. */
  function Rerun(s: seq<Check>, o: set<CheckId>, stale: set<CheckId>, ts: seq<Check>, owner: AgentId, n: CheckId): seq<Check> {
    MaterialiseAll(RetireStale(MarkOverridden(s, o), stale), ts, owner, n)
  }

  /** The second run sees the same candidates up to override flags, so it resolves them alike. */
  lemma SecondRunResolvesAlike(s: seq<Check>, owner: AgentId, o: set<CheckId>, stale: set<CheckId>, ts: seq<Check>,
                               n: CheckId, plat: string, supported: set<string>, ps: PolicyStack)
    requires TableOf(s, owner)
    ensures Resolve(Candidates(Rerun(s, o, stale, ts, owner, n), ps), plat, supported) == Resolve(Candidates(s, ps), plat, supported)
  {
    var m0 := MarkOverridden(s, o);
    var r0 := RetireStale(m0, stale);
    DirectOfMaterialise(r0, ts, owner, n);
    DirectOfRetire(m0, stale);
    DirectOfMark(s, o);
    var d := DirectChecks(s);
    DirectChecksMembers(s);
    assert FlagVariant(d, MarkOverridden(d, o)) by {
      forall i | 0 <= i < |d| ensures d[i].agent.Some? {
        assert d[i] in d;
      }
    }
    FlagVariantConcat(Gather(ps.Layers(), true), d, DirectChecks(Rerun(s, o, stale, ts, owner, n)), Gather(ps.Layers(), false));
    ResolveIgnoresFlags(Candidates(s, ps), Candidates(Rerun(s, o, stale, ts, owner, n), ps), plat, supported);
  }

  /** Flagged pks are ids of direct rows below `n`; the rows that carry them after the run are flagged already. */
  lemma FlagsAlreadySet(s: seq<Check>, o: set<CheckId>, stale: set<CheckId>, ts: seq<Check>, owner: AgentId, n: CheckId)
    requires forall pk :: pk in o ==> exists c :: c in s && !c.managedByPolicy && c.pk == pk
    requires forall c :: c in s ==> c.pk < n
    ensures MarkOverridden(Rerun(s, o, stale, ts, owner, n), o) == Rerun(s, o, stale, ts, owner, n)
  {
    var m0 := MarkOverridden(s, o);
    var r0 := RetireStale(m0, stale);
    var s1 := Rerun(s, o, stale, ts, owner, n);
    MarkKeepsRows(s, o);
    RetireStaleMembers(m0, stale);
    forall i | 0 <= i < |s1| && s1[i].pk in o ensures s1[i].overridenByPolicy {
      var c := s1[i];
      MaterialiseMembers(r0, ts, owner, n, c);
      var w :| w in s && !w.managedByPolicy && w.pk == c.pk;
      assert forall j :: 0 <= j < |ts| ==> Materialised(ts[j], owner, n + j).pk >= n;
      assert c in r0;
      var k :| 0 <= k < |m0| && m0[k] == c;
    }
  }

  /** Every managed row left after the run points into the final list `f`, so the next run retires nothing. */
  lemma NothingRetired(s: seq<Check>, o: set<CheckId>, f: seq<Check>, ts: seq<Check>, owner: AgentId, n: CheckId)
    requires forall t :: t in ts ==> t in f
    ensures var s1 := Rerun(s, o, ManagedParents(s) - Pks(f), ts, owner, n);
      RetireStale(s1, ManagedParents(s1) - Pks(f)) == s1
  {
    var stale := ManagedParents(s) - Pks(f);
    var m0 := MarkOverridden(s, o);
    var r0 := RetireStale(m0, stale);
    var s1 := Rerun(s, o, stale, ts, owner, n);
    MarkKeepsRows(s, o);
    RetireStaleMembers(m0, stale);
    forall c | c in s1 ensures !Retired(c, ManagedParents(s1) - Pks(f)) {
      MaterialiseMembers(r0, ts, owner, n, c);
      if c in r0 {
        var k :| 0 <= k < |m0| && m0[k] == c;
        assert s[k] in s;
      } else {
        var j :| 0 <= j < |ts| && c == Materialised(ts[j], owner, n + j);
        assert ts[j] in ts;
      }
    }
    RetireNothing(s1, ManagedParents(s1) - Pks(f));
  }

  lemma {:induction false} NothingLeftToCreate(f: seq<Check>, prior: set<CheckId>)
    requires forall t :: t in f ==> t.pk in prior
    ensures NotMaterialised(f, prior) == []
    decreases |f|
  {
    if f != [] {
      var init := f[..|f| - 1];
      assert forall t :: t in init ==> t in f;
      NothingLeftToCreate(init, prior);
      assert f[|f| - 1] in f;
    }
  }

  /** After the copies are created every template of `f` is the parent of a managed row. */
  lemma AllMaterialised(s: seq<Check>, o: set<CheckId>, f: seq<Check>, owner: AgentId, n: CheckId)
    ensures var prior := ManagedParents(s);
      var s1 := Rerun(s, o, prior - Pks(f), NotMaterialised(f, prior), owner, n);
      NotMaterialised(f, ManagedParents(s1)) == []
  {
    var prior := ManagedParents(s);
    var stale := prior - Pks(f);
    var m0 := MarkOverridden(s, o);
    var r0 := RetireStale(m0, stale);
    var ts := NotMaterialised(f, prior);
    var s1 := Rerun(s, o, stale, ts, owner, n);
    MarkKeepsRows(s, o);
    RetireStaleMembers(m0, stale);
    NotMaterialisedMembers(f, prior);
    forall t | t in f ensures t.pk in ManagedParents(s1) {
      if t.pk in prior {
        var c :| c in s && c.managedByPolicy && c.parentCheck == Some(t.pk);
        var k :| 0 <= k < |s| && s[k] == c;
        assert t.pk in Pks(f);
        assert m0[k].managedByPolicy && m0[k].parentCheck == Some(t.pk);
        assert m0[k] in m0 && !Retired(m0[k], stale);
        assert m0[k] in r0;
        MaterialiseMembers(r0, ts, owner, n, m0[k]);
      } else {
        var j :| 0 <= j < |ts| && ts[j] == t;
        MaterialiseMembers(r0, ts, owner, n, Materialised(t, owner, n + j));
      }
    }
    NothingLeftToCreate(f, ManagedParents(s1));
  }

  /**
    Idempotence: after a cascade and the creation of what it returned, a
    second cascade over the same policies returns nothing and changes no row.
  */
  lemma CheckCascadeIdempotent(s: seq<Check>, owner: AgentId, nextPk: CheckId,
                               plat: string, supported: set<string>, ps: PolicyStack)
    requires TableOf(s, owner) && (forall c :: c in s ==> c.pk < nextPk) && TemplatesOnly(ps)
    ensures var out := Cascade(s, plat, supported, ps);
      var s1 := MaterialiseAll(out.checks, out.toCreate, owner, nextPk);
      Cascade(s1, plat, supported, ps) == Outcome(s1, [])
  {
    var res := Resolve(Candidates(s, ps), plat, supported);
    var o := res.overridden;
    var f := InTypeOrder(res.accepted);
    var prior := ManagedParents(s);
    var toCreate := NotMaterialised(f, prior);
    var s1 := Rerun(s, o, prior - Pks(f), toCreate, owner, nextPk);
    SecondRunResolvesAlike(s, owner, o, prior - Pks(f), toCreate, nextPk, plat, supported, ps);
    OverriddenAreDirect(s, plat, supported, ps);
    FlagsAlreadySet(s, o, prior - Pks(f), toCreate, owner, nextPk);
    NotMaterialisedMembers(f, prior);
    NothingRetired(s, o, f, toCreate, owner, nextPk);
    AllMaterialised(s, o, f, owner, nextPk);
  }
}
