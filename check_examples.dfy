/**
  A concrete run of the check cascade on a small, fixed policy stack.
*/
module CheckExamples {
  import opened Entities
  import opened CheckSpec

  /** A list with no check of rank `r` has an empty bucket for `r`. */
  lemma {:induction false} OfRankAbsent(s: seq<Check>, r: nat)
    requires forall c :: c in s ==> Rank(c.kind) != r
    ensures OfRank(s, r) == []
    decreases |s|
  {
    if s != [] {
      var init := s[..|s| - 1];
      assert forall c :: c in init ==> c in s;
      OfRankAbsent(init, r);
      assert s[|s| - 1] in s;
    }
  }

  /** A list of disk checks only is already in type order. */
  lemma DisksInTypeOrder(s: seq<Check>)
    requires forall c :: c in s ==> c.kind.DiskSpace?
    ensures InTypeOrder(s) == s
  {
    forall r | 1 <= r <= 6 ensures OfRank(s, r) == [] {
      OfRankAbsent(s, r);
    }
    assert Buckets(s, 1) == [] by {
      assert Buckets(s, 7) == [];
      assert Buckets(s, 6) == OfRank(s, 6) + Buckets(s, 7);
      assert Buckets(s, 5) == OfRank(s, 5) + Buckets(s, 6);
      assert Buckets(s, 4) == OfRank(s, 4) + Buckets(s, 5);
      assert Buckets(s, 3) == OfRank(s, 3) + Buckets(s, 4);
      assert Buckets(s, 2) == OfRank(s, 2) + Buckets(s, 3);
    }
    OfRankAll(s);
    assert InTypeOrder(s) == OfRank(s, 0) + Buckets(s, 1);
  }

  /** The bucket of the only rank present is the whole list. */
  lemma {:induction false} OfRankAll(s: seq<Check>)
    requires forall c :: c in s ==> c.kind.DiskSpace?
    ensures OfRank(s, 0) == s
    decreases |s|
  {
    if s != [] {
      var init := s[..|s| - 1];
      assert forall c :: c in init ==> c in s;
      OfRankAll(init);
      assert s[|s| - 1] in s;
      assert s == init + [s[|s| - 1]];
    }
  }

  // The fixture: an enforced policy with disk `C:`, a plain policy with disks
  // `C:` and `D:` (as the site's and the client's policy), and an agent with
  // its own `C:` check.

  function EnforcedC(): Check { Check(10, DiskSpace("C:"), None, false, None, false) }
  function TeamC(): Check { Check(20, DiskSpace("C:"), None, false, None, false) }
  function TeamD(): Check { Check(21, DiskSpace("D:"), None, false, None, false) }
  function OwnC(): Check { Check(1, DiskSpace("C:"), Some(5), false, None, false) }

  function Stack(): PolicyStack {
    PolicyStack(
      None,
      Some(Policy(200, true, false, {}, {}, {}, [TeamC(), TeamD()], [])),
      Some(Policy(100, true, true, {}, {}, {}, [EnforcedC()], [])),
      None)
  }

  /** Enforced first, then the agent's own, then the plain policy's. */
  lemma ExampleCandidates()
    ensures Candidates([OwnC()], Stack()) == [EnforcedC(), OwnC(), TeamC(), TeamD()]
  {
    var layers := Stack().Layers();
    assert layers[..0] == [];
    assert layers[..1] == [None] && layers[..1][..0] == [];
    assert layers[..2] == [None, Stack().sitePolicy] && layers[..2][..1] == layers[..1];
    assert layers[..3] == [None, Stack().sitePolicy, Stack().clientPolicy] && layers[..3][..2] == layers[..2];
    assert layers[..4][..3] == layers[..3];
    assert Gather(layers[..1], true) == [];
    assert Gather(layers[..1], false) == [];
    assert Gather(layers[..2], true) == [];
    assert Gather(layers[..2], false) == [TeamC(), TeamD()];
    assert Gather(layers[..3], true) == [EnforcedC()];
    assert Gather(layers[..3], false) == [TeamC(), TeamD()];
    assert layers[..4] == layers;
    assert [OwnC()][..0] == [];
    assert DirectChecks([OwnC()]) == [OwnC()];
  }

  /** `C:` is taken by the enforced check, which overrides the agent's own; `D:` comes from the plain policy. */
  lemma ExampleResolve()
    ensures Resolve([EnforcedC(), OwnC(), TeamC(), TeamD()], "windows", {}) ==
      Resolution({DiskKey("C:"), DiskKey("D:")}, [EnforcedC(), TeamD()], {1})
  {
    var cands := [EnforcedC(), OwnC(), TeamC(), TeamD()];
    var c := DiskKey("C:");
    assert cands[..1] == [EnforcedC()] && cands[..1][..0] == [];
    assert cands[..2] == [EnforcedC(), OwnC()] && cands[..2][..1] == cands[..1];
    assert cands[..3] == [EnforcedC(), OwnC(), TeamC()] && cands[..3][..2] == cands[..2];
    assert cands[..4] == cands && cands[..4][..3] == cands[..3];
    assert Resolve(cands[..1], "windows", {}) == Resolution({c}, [EnforcedC()], {});
    assert Resolve(cands[..2], "windows", {}) == Resolution({c}, [EnforcedC()], {1});
    assert Resolve(cands[..3], "windows", {}) == Resolution({c}, [EnforcedC()], {1});
  }

  /** The accepted checks are already in type order, so `final_list` is the enforced `C:` and the plain `D:`. */
  lemma ExampleFinalList()
    ensures FinalList([OwnC()], "windows", {}, Stack()) == [EnforcedC(), TeamD()]
  {
    ExampleCandidates();
    ExampleResolve();
    DisksInTypeOrder([EnforcedC(), TeamD()]);
  }

  /** The agent's own `C:` check is flagged, and no row is deleted. */
  lemma ExampleTable()
    ensures RetireStale(MarkOverridden([OwnC()], {1}), {}) == [OwnC().(overridenByPolicy := true)]
  {
    var marked := OwnC().(overridenByPolicy := true);
    assert MarkOverridden([OwnC()], {1}) == [marked];
    assert [marked][..0] == [];
  }

  /** Neither template has a managed copy yet, so both are returned. */
  lemma ExampleReturned()
    ensures NotMaterialised([EnforcedC(), TeamD()], {}) == [EnforcedC(), TeamD()]
  {
    assert [EnforcedC(), TeamD()][..1] == [EnforcedC()] && [EnforcedC()][..0] == [];
  }

  /**
    On a windows agent the enforced `C:` and the plain `D:` are returned for
    creation, the agent's own `C:` is flagged overridden, and the plain `C:`
    is dropped.
  */
  lemma EnforcedDiskExample()
    ensures Cascade([OwnC()], "windows", {}, Stack()) ==
      Outcome([OwnC().(overridenByPolicy := true)], [EnforcedC(), TeamD()])
  {
    ExampleCandidates();
    ExampleResolve();
    ExampleFinalList();
    ExampleTable();
    ExampleReturned();
    assert ManagedParents([OwnC()]) == {};
  }
}
