/**
  The check cascade of `Policy.cascade_policy_checks` as functions on values:
  the candidate sequence, the first-wins deduplication with its platform
  gates, the fixed type order of the result, the override flags and the
  retirement of managed checks whose template fell out.

  The imperative method in CheckCascade is proved equal to `Cascade` below;
  the lemmas here state what that result means.
*/
module CheckSpec {
  import opened Entities

  /** The identity a check is deduplicated on; one key space per check type. */
  datatype Key =
    | DiskKey(disk: string)
    | PingKey(ip: string)
    | CpuLoadKey
    | MemoryKey
    | WinSvcKey(svcName: string)
    | ScriptKey(scriptId: ScriptId)
    | EventLogKey(logName: string, eventId: int)

  /** The check type a key belongs to, numbered as `Rank` numbers check types. */
  function KeyRank(key: Key): nat {
    match key
    case DiskKey(_) => 0
    case PingKey(_) => 1
    case CpuLoadKey => 2
    case MemoryKey => 3
    case WinSvcKey(_) => 4
    case ScriptKey(_) => 5
    case EventLogKey(_, _) => 6
  }

  /**
    Disk letter, host, service name, script id or (log name, event id);
    cpuload and memory are singletons. The key keeps the check type, so checks
    of different types never share a key.
  */
  function KeyOf(k: CheckKind): (r: Key)
    ensures KeyRank(r) == Rank(k)
  {
    match k
    case DiskSpace(disk) => DiskKey(disk)
    case Ping(ip) => PingKey(ip)
    case CpuLoad => CpuLoadKey
    case Memory => MemoryKey
    case WinSvc(svc) => WinSvcKey(svc)
    case ScriptCheck(id, _) => ScriptKey(id)
    case EventLog(log, ev) => EventLogKey(log, ev)
  }

  /**
    Two checks are duplicates of each other: same type and same identifying
    field; a script check's shell plays no part, and there is one cpuload and
    one memory check.
  */
  predicate SameIdentity(k: CheckKind, k': CheckKind) {
    || (k.DiskSpace? && k'.DiskSpace? && k.disk == k'.disk)
    || (k.Ping? && k'.Ping? && k.ip == k'.ip)
    || (k.CpuLoad? && k'.CpuLoad?)
    || (k.Memory? && k'.Memory?)
    || (k.WinSvc? && k'.WinSvc? && k.svcName == k'.svcName)
    || (k.ScriptCheck? && k'.ScriptCheck? && k.scriptId == k'.scriptId)
    || (k.EventLog? && k'.EventLog? && k.logName == k'.logName && k.eventId == k'.eventId)
  }

  /** Two checks share a key exactly when they are duplicates of each other. */
  lemma SameKeyExactly(k: CheckKind, k': CheckKind)
    ensures KeyOf(k) == KeyOf(k') <==> SameIdentity(k, k')
  {
  }

  /**
    The platform gate, per check type: ping on every platform, a script
    check exactly when its shell is supported (on windows too), every other
    type exactly on windows.
  */
  predicate Applies(k: CheckKind, plat: string, supported: set<string>): (r: bool)
    ensures k.Ping? ==> r
    ensures k.ScriptCheck? ==> (r <==> k.shell in supported)
    ensures !k.Ping? && !k.ScriptCheck? ==> (r <==> plat == "windows")
  {
    match k
    case Ping(_) => true
    case ScriptCheck(_, shell) => shell in supported
    case _ => plat == "windows"
  }

  /** Position of a check type in the result: diskspace, ping, cpuload, memory, winsvc, script, eventlog. */
  function Rank(k: CheckKind): (r: nat)
    ensures r < 7
  {
    match k
    case DiskSpace(_) => 0
    case Ping(_) => 1
    case CpuLoad => 2
    case Memory => 3
    case WinSvc(_) => 4
    case ScriptCheck(_, _) => 5
    case EventLog(_, _) => 6
  }

  // ---------------------------------------------------------------------------
  // The candidate sequence

  /** What one policy layer adds to the enforced group (`enforced`) or to the plain group (`!enforced`). */
  function Contribution(layer: Option<Policy>, enforced: bool): seq<Check> {
    if layer.Some? && layer.value.active && layer.value.enforced == enforced then layer.value.checks else []
  }

  /** The checks of the active layers of one group, layer after layer. */
  function Gather(layers: seq<Option<Policy>>, enforced: bool): seq<Check>
    decreases |layers|
  {
    if layers == [] then []
    else Gather(layers[..|layers| - 1], enforced) + Contribution(layers[|layers| - 1], enforced)
  }

  /** The agent's own checks (`managed_by_policy=False`), in table order. */
  function DirectChecks(s: seq<Check>): seq<Check>
    decreases |s|
  {
    if s == [] then []
    else
      var last := s[|s| - 1];
      DirectChecks(s[..|s| - 1]) + (if last.managedByPolicy then [] else [last])
  }

  lemma {:induction false} DirectChecksMembers(s: seq<Check>)
    ensures forall c :: c in DirectChecks(s) <==> c in s && !c.managedByPolicy
    decreases |s|
  {
    if s != [] {
      DirectChecksMembers(s[..|s| - 1]);
      assert s == s[..|s| - 1] + [s[|s| - 1]];
    }
  }

  /** `enforced_checks + agent_checks + policy_checks`. */
  function Candidates(s: seq<Check>, ps: PolicyStack): seq<Check> {
    Gather(ps.Layers(), true) + DirectChecks(s) + Gather(ps.Layers(), false)
  }

  /** A check is a candidate of a group exactly when an active layer of that group owns it. */
  lemma {:induction false} GatherMembers(layers: seq<Option<Policy>>, enforced: bool, c: Check)
    ensures c in Gather(layers, enforced) <==>
      exists j :: 0 <= j < |layers| && layers[j].Some? && layers[j].value.active
                  && layers[j].value.enforced == enforced && c in layers[j].value.checks
    decreases |layers|
  {
    if layers != [] {
      var init := layers[..|layers| - 1];
      GatherMembers(init, enforced, c);
      if c in Gather(layers, enforced) && c !in Gather(init, enforced) {
        var j := |layers| - 1;
        assert layers[j].Some? && layers[j].value.active && layers[j].value.enforced == enforced && c in layers[j].value.checks;
      }
      if exists j :: 0 <= j < |layers| && layers[j].Some? && layers[j].value.active
                     && layers[j].value.enforced == enforced && c in layers[j].value.checks
      {
        var j :| 0 <= j < |layers| && layers[j].Some? && layers[j].value.active
                 && layers[j].value.enforced == enforced && c in layers[j].value.checks;
        if j < |layers| - 1 {
          assert init[j] == layers[j];
        }
      }
    }
  }

  /** Every candidate is a direct check of the agent or a template of an active layer. */
  lemma CandidateSources(s: seq<Check>, ps: PolicyStack, c: Check)
    requires c in Candidates(s, ps)
    ensures (c in s && !c.managedByPolicy) ||
      exists j :: 0 <= j < 4 && ps.Layers()[j].Some? && ps.Layers()[j].value.active && c in ps.Layers()[j].value.checks
  {
    GatherMembers(ps.Layers(), true, c);
    GatherMembers(ps.Layers(), false, c);
    DirectChecksMembers(s);
  }

  // ---------------------------------------------------------------------------
  // First-wins deduplication

  /** The seen keys, the accepted templates in candidate order, and the pks flagged as overridden. */
  datatype Resolution = Resolution(seen: set<Key>, accepted: seq<Check>, overridden: set<CheckId>)

  /** One turn of the loop over the candidates. */
  function Step(r: Resolution, c: Check, plat: string, supported: set<string>): Resolution {
    if !Applies(c.kind, plat, supported) then r
    else if KeyOf(c.kind) !in r.seen then
      Resolution(r.seen + {KeyOf(c.kind)}, if c.agent.None? then r.accepted + [c] else r.accepted, r.overridden)
    else if c.agent.Some? then
      r.(overridden := r.overridden + {c.pk})
    else r
  }

  /** The state of the loop after all of `cands`. */
  function Resolve(cands: seq<Check>, plat: string, supported: set<string>): Resolution
    decreases |cands|
  {
    if cands == [] then Resolution({}, [], {})
    else Step(Resolve(cands[..|cands| - 1], plat, supported), cands[|cands| - 1], plat, supported)
  }

  /** No applicable candidate before position `i` has the key of `cands[i]`. */
  predicate FirstOfKey(cands: seq<Check>, i: nat, plat: string, supported: set<string>)
    requires i < |cands|
  {
    forall j :: 0 <= j < i && Applies(cands[j].kind, plat, supported) ==> KeyOf(cands[j].kind) != KeyOf(cands[i].kind)
  }

  lemma FirstOfKeyPrefix(cands: seq<Check>, n: nat, i: nat, plat: string, supported: set<string>)
    requires i < n <= |cands|
    ensures FirstOfKey(cands[..n], i, plat, supported) <==> FirstOfKey(cands, i, plat, supported)
  {
    assert forall j :: 0 <= j <= i ==> cands[..n][j] == cands[j];
  }

  /** The seen keys are exactly the keys of the candidates that pass their platform gate. */
  lemma {:induction false} SeenKeys(cands: seq<Check>, plat: string, supported: set<string>)
    ensures forall k :: k in Resolve(cands, plat, supported).seen <==>
      exists i :: 0 <= i < |cands| && Applies(cands[i].kind, plat, supported) && KeyOf(cands[i].kind) == k
    decreases |cands|
  {
    if cands != [] {
      var n := |cands| - 1;
      var init := cands[..n];
      SeenKeys(init, plat, supported);
      assert forall i :: 0 <= i < n ==> init[i] == cands[i];
      forall k | exists i :: 0 <= i < |cands| && Applies(cands[i].kind, plat, supported) && KeyOf(cands[i].kind) == k
        ensures k in Resolve(cands, plat, supported).seen
      {
        var i :| 0 <= i < |cands| && Applies(cands[i].kind, plat, supported) && KeyOf(cands[i].kind) == k;
        if i < n {
          assert init[i] == cands[i];
        }
      }
    }
  }

  /** A candidate's key was seen before it iff it is not the first applicable one with that key. */
  lemma SeenBefore(cands: seq<Check>, i: nat, plat: string, supported: set<string>)
    requires i < |cands|
    ensures KeyOf(cands[i].kind) in Resolve(cands[..i], plat, supported).seen <==> !FirstOfKey(cands, i, plat, supported)
  {
    SeenKeys(cands[..i], plat, supported);
    assert forall j :: 0 <= j < i ==> cands[..i][j] == cands[j];
  }

  /**
    What is accepted: applicable templates (no agent) that came first with
    their key, one per key.
  */
  lemma {:induction false} AcceptedChecks(cands: seq<Check>, plat: string, supported: set<string>)
    ensures var r := Resolve(cands, plat, supported);
      && (forall c :: c in r.accepted ==> c.agent.None? && Applies(c.kind, plat, supported) && KeyOf(c.kind) in r.seen)
      && (forall c :: c in r.accepted ==> exists i :: 0 <= i < |cands| && cands[i] == c && FirstOfKey(cands, i, plat, supported))
      && (forall i, j :: 0 <= i < j < |r.accepted| ==> KeyOf(r.accepted[i].kind) != KeyOf(r.accepted[j].kind))
    decreases |cands|
  {
    if cands != [] {
      var n := |cands| - 1;
      var init := cands[..n];
      var prev := Resolve(init, plat, supported);
      AcceptedChecks(init, plat, supported);
      SeenBefore(cands, n, plat, supported);
      var r := Resolve(cands, plat, supported);
      forall c | c in r.accepted
        ensures exists i :: 0 <= i < |cands| && cands[i] == c && FirstOfKey(cands, i, plat, supported)
      {
        if c in prev.accepted {
          var i :| 0 <= i < n && init[i] == c && FirstOfKey(init, i, plat, supported);
          FirstOfKeyPrefix(cands, n, i, plat, supported);
        } else {
          assert c == cands[n];
        }
      }
    }
  }

  /** The first applicable candidate of each key is the one accepted for that key, when it is a template. */
  lemma {:induction false} FirstOccurrenceWins(cands: seq<Check>, i: nat, plat: string, supported: set<string>)
    requires i < |cands| && Applies(cands[i].kind, plat, supported) && FirstOfKey(cands, i, plat, supported)
    ensures var r := Resolve(cands, plat, supported);
      && (cands[i].agent.None? ==> cands[i] in r.accepted)
      && (forall c :: c in r.accepted && KeyOf(c.kind) == KeyOf(cands[i].kind) ==> c == cands[i])
    decreases |cands|
  {
    var n := |cands| - 1;
    var init := cands[..n];
    var prev := Resolve(init, plat, supported);
    AcceptedChecks(init, plat, supported);
    if i == n {
      SeenBefore(cands, n, plat, supported);
    } else {
      FirstOfKeyPrefix(cands, n, i, plat, supported);
      FirstOccurrenceWins(init, i, plat, supported);
      SeenKeys(init, plat, supported);
      assert init[i] == cands[i];
      assert KeyOf(cands[i].kind) in prev.seen;
    }
  }

  /** A pk is flagged iff it belongs to an agent-owned candidate whose key an earlier applicable candidate took. */
  lemma {:induction false} OverriddenExactly(cands: seq<Check>, plat: string, supported: set<string>)
    ensures forall pk :: pk in Resolve(cands, plat, supported).overridden <==>
      exists i :: 0 <= i < |cands| && cands[i].pk == pk && cands[i].agent.Some?
                  && Applies(cands[i].kind, plat, supported) && !FirstOfKey(cands, i, plat, supported)
    decreases |cands|
  {
    if cands != [] {
      var n := |cands| - 1;
      var init := cands[..n];
      OverriddenExactly(init, plat, supported);
      SeenBefore(cands, n, plat, supported);
      forall pk ensures pk in Resolve(cands, plat, supported).overridden <==>
        exists i :: 0 <= i < |cands| && cands[i].pk == pk && cands[i].agent.Some?
                    && Applies(cands[i].kind, plat, supported) && !FirstOfKey(cands, i, plat, supported)
      {
        if pk in Resolve(init, plat, supported).overridden {
          var i :| 0 <= i < n && init[i].pk == pk && init[i].agent.Some?
                   && Applies(init[i].kind, plat, supported) && !FirstOfKey(init, i, plat, supported);
          FirstOfKeyPrefix(cands, n, i, plat, supported);
          assert cands[i] == init[i];
        }
        if exists i :: 0 <= i < |cands| && cands[i].pk == pk && cands[i].agent.Some?
                       && Applies(cands[i].kind, plat, supported) && !FirstOfKey(cands, i, plat, supported)
        {
          var i :| 0 <= i < |cands| && cands[i].pk == pk && cands[i].agent.Some?
                   && Applies(cands[i].kind, plat, supported) && !FirstOfKey(cands, i, plat, supported);
          if i < n {
            FirstOfKeyPrefix(cands, n, i, plat, supported);
            assert init[i] == cands[i];
          }
        }
      }
    }
  }

  // ---------------------------------------------------------------------------
  // The fixed type order of `final_list`

  /** The bucket of one check type, in candidate order. */
  function OfRank(s: seq<Check>, r: nat): seq<Check>
    decreases |s|
  {
    if s == [] then []
    else OfRank(s[..|s| - 1], r) + (if Rank(s[|s| - 1].kind) == r then [s[|s| - 1]] else [])
  }

  /** The buckets of ranks `r` to 6, concatenated. */
  function Buckets(s: seq<Check>, r: nat): seq<Check>
    requires r <= 7
    decreases 7 - r
  {
    if r == 7 then [] else OfRank(s, r) + Buckets(s, r + 1)
  }

  /** `diskspace + ping + cpuload + memory + winsvc + script + eventlog`. */
  function InTypeOrder(s: seq<Check>): seq<Check> {
    Buckets(s, 0)
  }

  lemma {:induction false} OfRankMembers(s: seq<Check>, r: nat)
    ensures forall c :: c in OfRank(s, r) <==> c in s && Rank(c.kind) == r
    decreases |s|
  {
    if s != [] {
      OfRankMembers(s[..|s| - 1], r);
      assert s == s[..|s| - 1] + [s[|s| - 1]];
    }
  }

  lemma {:induction false} OfRankAppend(a: seq<Check>, b: seq<Check>, r: nat)
    ensures OfRank(a + b, r) == OfRank(a, r) + OfRank(b, r)
    decreases |b|
  {
    if b != [] {
      var b' := b[..|b| - 1];
      assert (a + b)[..|a + b| - 1] == a + b';
      OfRankAppend(a, b', r);
    } else {
      assert a + b == a;
    }
  }

  lemma {:induction false} OfRankOfRank(s: seq<Check>, r: nat, r': nat)
    ensures OfRank(OfRank(s, r'), r) == if r == r' then OfRank(s, r) else []
    decreases |s|
  {
    if s != [] {
      var init := s[..|s| - 1];
      OfRankOfRank(init, r, r');
      OfRankAppend(OfRank(init, r'), if Rank(s[|s| - 1].kind) == r' then [s[|s| - 1]] else [], r);
    }
  }

  lemma {:induction false} BucketsOfRank(s: seq<Check>, r: nat, r': nat)
    requires r' <= 7
    ensures OfRank(Buckets(s, r'), r) == if r' <= r < 7 then OfRank(s, r) else []
    decreases 7 - r'
  {
    if r' < 7 {
      var head, tail := OfRank(s, r'), Buckets(s, r' + 1);
      assert Buckets(s, r') == head + tail;
      BucketsOfRank(s, r, r' + 1);
      OfRankAppend(head, tail, r);
      OfRankOfRank(s, r, r');
      if r == r' {
        assert OfRank(tail, r) == [];
        assert OfRank(head, r) + [] == OfRank(s, r);
      } else {
        assert OfRank(head, r) == [];
        assert [] + OfRank(tail, r) == OfRank(tail, r);
      }
    }
  }

  lemma {:induction false} BucketsSorted(s: seq<Check>, r: nat)
    requires r <= 7
    ensures forall c :: c in Buckets(s, r) ==> r <= Rank(c.kind)
    ensures forall i, j :: 0 <= i < j < |Buckets(s, r)| ==> Rank(Buckets(s, r)[i].kind) <= Rank(Buckets(s, r)[j].kind)
    decreases 7 - r
  {
    if r < 7 {
      BucketsSorted(s, r + 1);
      OfRankMembers(s, r);
      var b := Buckets(s, r);
      var o := OfRank(s, r);
      forall i, j | 0 <= i < j < |b| ensures Rank(b[i].kind) <= Rank(b[j].kind) {
        if j < |o| {
          assert b[i] in o && b[j] in o;
        } else if i < |o| {
          assert b[i] in o && b[j] in Buckets(s, r + 1);
        } else {
          assert b[i] == Buckets(s, r + 1)[i - |o|] && b[j] == Buckets(s, r + 1)[j - |o|];
        }
      }
    }
  }

  /** The last check joins the bucket of its own type only. */
  lemma OfRankSnoc(s: seq<Check>, r: nat)
    requires s != []
    ensures var c := s[|s| - 1];
      multiset(OfRank(s, r)) == multiset(OfRank(s[..|s| - 1], r)) + (if Rank(c.kind) == r then multiset{c} else multiset{})
  {
  }

  lemma {:induction false} BucketsSnoc(s: seq<Check>, r: nat)
    requires r <= 7 && s != []
    ensures var c := s[|s| - 1];
      multiset(Buckets(s, r)) == multiset(Buckets(s[..|s| - 1], r)) + (if r <= Rank(c.kind) then multiset{c} else multiset{})
    decreases 7 - r
  {
    if r < 7 {
      var init := s[..|s| - 1];
      OfRankSnoc(s, r);
      BucketsSnoc(s, r + 1);
      assert multiset(Buckets(s, r)) == multiset(OfRank(s, r)) + multiset(Buckets(s, r + 1));
      assert multiset(Buckets(init, r)) == multiset(OfRank(init, r)) + multiset(Buckets(init, r + 1));
    }
  }

  lemma {:induction false} BucketsPermutation(s: seq<Check>)
    ensures multiset(Buckets(s, 0)) == multiset(s)
    decreases |s|
  {
    if s != [] {
      var init, last := s[..|s| - 1], s[|s| - 1];
      BucketsPermutation(init);
      BucketsSnoc(s, 0);
      assert init + [last] == s;
    }
  }

  /**
    The result is a permutation of the accepted checks, ordered by type, and
    within one type it keeps the order in which they were accepted.
  */
  lemma InTypeOrderSpec(s: seq<Check>)
    ensures multiset(InTypeOrder(s)) == multiset(s)
    ensures forall i, j :: 0 <= i < j < |InTypeOrder(s)| ==> Rank(InTypeOrder(s)[i].kind) <= Rank(InTypeOrder(s)[j].kind)
    ensures forall r :: r < 7 ==> OfRank(InTypeOrder(s), r) == OfRank(s, r)
  {
    BucketsPermutation(s);
    BucketsSorted(s, 0);
    forall r | r < 7 ensures OfRank(InTypeOrder(s), r) == OfRank(s, r) {
      BucketsOfRank(s, r, 0);
    }
  }

  // ---------------------------------------------------------------------------
  // Overrides, retirement and what is left to create

  function Pks(s: seq<Check>): set<CheckId> {
    set c | c in s :: c.pk
  }

  /** `agent_checks_parent_pks` without the nulls, which a `parent_check__in` filter never matches. */
  function ManagedParents(s: seq<Check>): set<CheckId> {
    set c | c in s && c.managedByPolicy && c.parentCheck.Some? :: c.parentCheck.value
  }

  /** `overriden_by_policy = True` on every row whose pk is in `pks`. */
  function MarkOverridden(s: seq<Check>, pks: set<CheckId>): seq<Check> {
    seq(|s|, i requires 0 <= i < |s| => if s[i].pk in pks then s[i].(overridenByPolicy := true) else s[i])
  }

  /** Row ids are unique in a table. */
  predicate UniquePks(s: seq<Check>) {
    forall i, j :: 0 <= i < j < |s| ==> s[i].pk != s[j].pk
  }

  /** Setting flags on a set of pks and then on another is setting them on the union. */
  lemma MarkTwice(s: seq<Check>, a: set<CheckId>, b: set<CheckId>)
    ensures MarkOverridden(MarkOverridden(s, a), b) == MarkOverridden(s, a + b)
  {
  }

  /** Marking changes only the override flag of a row. */
  lemma MarkKeepsRows(s: seq<Check>, pks: set<CheckId>)
    ensures |MarkOverridden(s, pks)| == |s|
    ensures forall i :: 0 <= i < |s| ==> MarkOverridden(s, pks)[i] == s[i].(overridenByPolicy := MarkOverridden(s, pks)[i].overridenByPolicy)
  {
  }

  /** A managed check whose template is in `stale` is deleted. */
  predicate Retired(c: Check, stale: set<CheckId>) {
    c.managedByPolicy && c.parentCheck.Some? && c.parentCheck.value in stale
  }

  /** The table after `filter(managed_by_policy=True, parent_check__in=stale).delete()`. */
  function RetireStale(s: seq<Check>, stale: set<CheckId>): seq<Check>
    decreases |s|
  {
    if s == [] then []
    else
      var last := s[|s| - 1];
      RetireStale(s[..|s| - 1], stale) + (if Retired(last, stale) then [] else [last])
  }

  /** Exactly the rows that are not retired survive. */
  lemma {:induction false} RetireStaleMembers(s: seq<Check>, stale: set<CheckId>)
    ensures forall c :: c in RetireStale(s, stale) <==> c in s && !Retired(c, stale)
    decreases |s|
  {
    if s != [] {
      RetireStaleMembers(s[..|s| - 1], stale);
      assert s == s[..|s| - 1] + [s[|s| - 1]];
    }
  }

  lemma {:induction false} RetireStaleUnique(s: seq<Check>, stale: set<CheckId>)
    requires UniquePks(s)
    ensures UniquePks(RetireStale(s, stale))
    decreases |s|
  {
    if s != [] {
      var init := s[..|s| - 1];
      var last := s[|s| - 1];
      assert UniquePks(init);
      RetireStaleUnique(init, stale);
      RetireStaleMembers(init, stale);
      var r := RetireStale(init, stale);
      forall c | c in r ensures c.pk != last.pk {
        var i :| 0 <= i < |init| && init[i] == c;
        assert s[i] == c;
      }
    }
  }

  /** The accepted templates that no managed check points to yet. */
  function NotMaterialised(final: seq<Check>, prior: set<CheckId>): seq<Check>
    decreases |final|
  {
    if final == [] then []
    else
      var last := final[|final| - 1];
      NotMaterialised(final[..|final| - 1], prior) + (if last.pk in prior then [] else [last])
  }

  /** Exactly the templates of `final` that no managed check points to are left. */
  lemma {:induction false} NotMaterialisedMembers(final: seq<Check>, prior: set<CheckId>)
    ensures forall c :: c in NotMaterialised(final, prior) <==> c in final && c.pk !in prior
    decreases |final|
  {
    if final != [] {
      NotMaterialisedMembers(final[..|final| - 1], prior);
      assert final == final[..|final| - 1] + [final[|final| - 1]];
    }
  }

  /** The new table and the templates still to materialise. */
  datatype Outcome = Outcome(checks: seq<Check>, toCreate: seq<Check>)

  /** The accepted templates in type order (`final_list`). */
  function FinalList(s: seq<Check>, plat: string, supported: set<string>, ps: PolicyStack): seq<Check> {
    InTypeOrder(Resolve(Candidates(s, ps), plat, supported).accepted)
  }

  /** `cascade_policy_checks` on the agent's table `s`. */
  function Cascade(s: seq<Check>, plat: string, supported: set<string>, ps: PolicyStack): Outcome {
    var res := Resolve(Candidates(s, ps), plat, supported);
    var final := FinalList(s, plat, supported, ps);
    var prior := ManagedParents(s);
    Outcome(RetireStale(MarkOverridden(s, res.overridden), prior - Pks(final)), NotMaterialised(final, prior))
  }

  /** The managed copy `create_policy_check` makes of template `t` on agent `owner`, under row id `pk`. */
  function Materialised(t: Check, owner: AgentId, pk: CheckId): Check {
    Check(pk, t.kind, Some(owner), true, Some(t.pk), false)
  }

  /** The table after creating a managed copy of each of `ts`, with ids from `nextPk` on. */
  function MaterialiseAll(s: seq<Check>, ts: seq<Check>, owner: AgentId, nextPk: CheckId): seq<Check>
    decreases |ts|
  {
    if ts == [] then s
    else MaterialiseAll(s, ts[..|ts| - 1], owner, nextPk) + [Materialised(ts[|ts| - 1], owner, nextPk + |ts| - 1)]
  }

  /** Creating one more copy appends it after the earlier ones. */
  lemma MaterialiseSnoc(s: seq<Check>, ts: seq<Check>, i: nat, owner: AgentId, nextPk: CheckId)
    requires i < |ts|
    ensures MaterialiseAll(s, ts[..i + 1], owner, nextPk) == MaterialiseAll(s, ts[..i], owner, nextPk) + [Materialised(ts[i], owner, nextPk + i)]
  {
    assert ts[..i + 1][..i] == ts[..i];
  }
}
