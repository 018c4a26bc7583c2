/** The broker egress rules: what a table of rules does to a packet, what the readback check accepts, and
    what a bounded apply with its deny-all fallback leaves behind. */
module EgressPolicy {

  import opened Bytes

  const APPLY_ATTEMPTS: nat := 3

  // ---- Packets and rules

  datatype Address = V4(octets: nat) | V6(groups: nat)

  datatype Packet = Packet(to: Address, tcp: bool, port: int, uid: int)

  datatype Network = Loopback4 | Loopback6 | Elsewhere(addresses: set<Address>)

  predicate Contains(network: Network, a: Address) {
    match network
    case Loopback4 => a.V4? && a.octets / 0x100_0000 == 127
    case Loopback6 => a.V6? && a.groups == 1
    case Elsewhere(addresses) => a in addresses
  }

  datatype Match = Daddr(network: Network) | Dport(ports: multiset<int>) | Skuid(uids: multiset<int>) | Unexpected

  datatype Verdict = Accept | Reject

  /** The four rule comments in use, or any other. */
  datatype Comment = AllowIpv4 | AllowIpv6 | DenyIpv4 | DenyIpv6 | Foreign(text: string)

  /** A rule as it is listed: its matches, and its verdict at the end. */
  datatype Rule = Rule(comment: Comment, matches: seq<Match>, verdict: Verdict)

  ghost predicate Hit(m: Match, p: Packet, unknown: bool) {
    match m
    case Daddr(network) => Contains(network, p.to)
    case Dport(ports) => p.tcp && p.port in ports
    case Skuid(uids) => p.uid in uids
    case Unexpected => unknown
  }

  ghost predicate Matches(rule: Rule, p: Packet, unknown: bool) {
    forall i :: 0 <= i < |rule.matches| ==> Hit(rule.matches[i], p, unknown)
  }

  /** The first rule that matches decides; the chain itself accepts. `unknown` is what matches that this
      model cannot read would do. */
  ghost function Outcome(rules: seq<Rule>, p: Packet, unknown: bool): Verdict {
    if rules == [] then Accept
    else if Matches(rules[0], p, unknown) then rules[0].verdict
    else Outcome(rules[1..], p, unknown)
  }

  // ---- The projection of a rule

  datatype Projection = Projection(network: Network, ports: multiset<int>, uids: Option<multiset<int>>,
                                   verdict: Verdict)

  datatype Gathered = Gathered(network: Option<Network>, ports: Option<multiset<int>>, uids: Option<multiset<int>>)

  function Gather(g: Gathered, m: Match): Option<Gathered> {
    match m
    case Daddr(network) => if g.network.Some? then None else Some(g.(network := Some(network)))
    case Dport(ports) => if g.ports.Some? then None else Some(g.(ports := Some(ports)))
    case Skuid(uids) => if g.uids.Some? then None else Some(g.(uids := Some(uids)))
    case Unexpected => None
  }

  function GatherAll(ms: seq<Match>): Option<Gathered> {
    if ms == [] then Some(Gathered(None, None, None))
    else
      var before := GatherAll(ms[..|ms| - 1]);
      if before.None? then None else Gather(before.value, ms[|ms| - 1])
  }

  function ProjectionOf(rule: Rule): Option<Projection> {
    var g := GatherAll(rule.matches);
    if g.None? || g.value.network.None? || g.value.ports.None? then None
    else if (rule.verdict == Accept) != g.value.uids.Some? then None
    else Some(Projection(g.value.network.value, g.value.ports.value, g.value.uids, rule.verdict))
  }

  /** _rule_projection. */
  method RuleProjection(rule: Rule) returns (r: Option<Projection>)
    ensures r == ProjectionOf(rule)
  {
    var g, i := Gathered(None, None, None), 0;
    while i < |rule.matches|
      invariant 0 <= i <= |rule.matches| && GatherAll(rule.matches[..i]) == Some(g)
    {
      assert rule.matches[..i + 1][..i] == rule.matches[..i];
      var next := Gather(g, rule.matches[i]);
      if next.None? {
        GatherFails(rule.matches, i + 1);
        return None;
      }
      g, i := next.value, i + 1;
    }
    assert rule.matches[..i] == rule.matches;
    if g.network.None? || g.ports.None? || (rule.verdict == Accept && g.uids.None?)
      || (rule.verdict == Reject && g.uids.Some?) {
      return None;
    }
    r := Some(Projection(g.network.value, g.ports.value, g.uids, rule.verdict));
  }

  lemma {:induction false} GatherFails(ms: seq<Match>, n: nat)
    requires n <= |ms| && GatherAll(ms[..n]).None?
    ensures GatherAll(ms).None?
    decreases |ms|
  {
    if n == |ms| {
      assert ms[..n] == ms;
    } else {
      assert ms[..|ms| - 1][..n] == ms[..n];
      GatherFails(ms[..|ms| - 1], n);
    }
  }

  ghost predicate Covers(g: Gathered, p: Packet) {
    && (g.network.Some? ==> Contains(g.network.value, p.to))
    && (g.ports.Some? ==> p.tcp && p.port in g.ports.value)
    && (g.uids.Some? ==> p.uid in g.uids.value)
  }

  lemma {:induction false} GatherMeans(ms: seq<Match>, p: Packet, unknown: bool)
    requires GatherAll(ms).Some?
    ensures (forall i :: 0 <= i < |ms| ==> Hit(ms[i], p, unknown)) <==> Covers(GatherAll(ms).value, p)
  {
    if ms != [] {
      var n := |ms| - 1;
      GatherMeans(ms[..n], p, unknown);
      assert forall i :: 0 <= i < n ==> ms[..n][i] == ms[i];
      assert (forall i :: 0 <= i < |ms| ==> Hit(ms[i], p, unknown)) <==>
             (forall i :: 0 <= i < n ==> Hit(ms[..n][i], p, unknown)) && Hit(ms[n], p, unknown);
    }
  }

  /** A rule that has a projection matches what the projection says, and nothing of it was unknown. */
  lemma ProjectionMeans(rule: Rule, p: Packet, unknown: bool)
    requires ProjectionOf(rule).Some?
    ensures
      var j := ProjectionOf(rule).value;
      && j.verdict == rule.verdict
      && (Matches(rule, p, unknown) <==>
            Contains(j.network, p.to) && p.tcp && p.port in j.ports && (j.uids.Some? ==> p.uid in j.uids.value))
  {
    GatherMeans(rule.matches, p, unknown);
  }

  // ---- The policy

  datatype Policy = Policy(ports: multiset<int>, uids: multiset<int>)

  const COMPILED: Policy := Policy(multiset{4001, 4002, 7496, 7497}, multiset{2003})

  /** _expected_rule_projection. */
  function Expected(policy: Policy, denyAll: bool): map<Comment, Projection> {
    var denied := map[
      DenyIpv4 := Projection(Loopback4, policy.ports, None, Reject),
      DenyIpv6 := Projection(Loopback6, policy.ports, None, Reject)];
    if denyAll then denied
    else denied[AllowIpv4 := Projection(Loopback4, policy.ports, Some(policy.uids), Accept)]
               [AllowIpv6 := Projection(Loopback6, policy.ports, Some(policy.uids), Accept)]
  }

  /** The rules that _ruleset writes, in its order. */
  function Generated(policy: Policy, denyAll: bool): seq<Rule> {
    var denied := [
      Rule(DenyIpv4, [Daddr(Loopback4), Dport(policy.ports)], Reject),
      Rule(DenyIpv6, [Daddr(Loopback6), Dport(policy.ports)], Reject)];
    if denyAll then denied
    else
      [Rule(AllowIpv4, [Daddr(Loopback4), Dport(policy.ports), Skuid(policy.uids)], Accept),
       Rule(AllowIpv6, [Daddr(Loopback6), Dport(policy.ports), Skuid(policy.uids)], Accept)] + denied
  }

  predicate Distinct(rules: seq<Rule>) {
    forall i, j :: 0 <= i < j < |rules| ==> rules[i].comment != rules[j].comment
  }

  /** The rules are the expected ones, each once, in any order. */
  predicate Verified(policy: Policy, rules: seq<Rule>, denyAll: bool) {
    var expected := Expected(policy, denyAll);
    && Distinct(rules)
    && (forall i :: 0 <= i < |rules| ==>
          rules[i].comment in expected && ProjectionOf(rules[i]) == Some(expected[rules[i].comment]))
    && (forall c :: c in expected ==> exists i :: 0 <= i < |rules| && rules[i].comment == c)
  }

  /** What the loop of the check has observed of some rules. */
  ghost predicate Observes(rules: seq<Rule>, observed: map<Comment, Projection>) {
    && Distinct(rules)
    && (forall i :: 0 <= i < |rules| ==>
          rules[i].comment in observed && ProjectionOf(rules[i]) == Some(observed[rules[i].comment]))
    && (forall c :: c in observed ==> exists i :: 0 <= i < |rules| && rules[i].comment == c)
  }

  /** The rule part of _verify_table. */
  method VerifyTable(policy: Policy, rules: seq<Rule>, denyAll: bool) returns (ok: bool)
    ensures ok <==> Verified(policy, rules, denyAll)
  {
    hide ProjectionOf, Expected;
    var observed: map<Comment, Projection> := map[];
    var i := 0;
    while i < |rules|
      invariant 0 <= i <= |rules| && Observes(rules[..i], observed)
    {
      assert rules[..i + 1] == rules[..i] + [rules[i]];
      if rules[i].comment in observed {
        var k :| 0 <= k < i && rules[..i][k].comment == rules[i].comment;
        assert rules[k].comment == rules[i].comment;
        return false;
      }
      var projection := RuleProjection(rules[i]);
      if projection.None? {
        return false;
      }
      ObservesMore(rules[..i], observed, rules[i], projection.value);
      observed := observed[rules[i].comment := projection.value];
      i := i + 1;
    }
    assert rules[..i] == rules;
    SameObservation(policy, rules, denyAll, observed);
    ok := observed == Expected(policy, denyAll);
  }

  lemma ObservesMore(rules: seq<Rule>, observed: map<Comment, Projection>, rule: Rule, projection: Projection)
    requires Observes(rules, observed) && rule.comment !in observed && ProjectionOf(rule) == Some(projection)
    ensures Observes(rules + [rule], observed[rule.comment := projection])
  {
    hide ProjectionOf;
    var more, all := rules + [rule], observed[rule.comment := projection];
    forall c | c in all ensures exists i :: 0 <= i < |more| && more[i].comment == c {
      if c == rule.comment {
        assert more[|rules|].comment == c;
      } else {
        var i :| 0 <= i < |rules| && rules[i].comment == c;
        assert more[i].comment == c;
      }
    }
  }

  lemma SameObservation(policy: Policy, rules: seq<Rule>, denyAll: bool, observed: map<Comment, Projection>)
    requires Observes(rules, observed)
    ensures Verified(policy, rules, denyAll) <==> observed == Expected(policy, denyAll)
  {
    hide ProjectionOf, Expected;
    var expected := Expected(policy, denyAll);
    if Verified(policy, rules, denyAll) {
      forall c | c in observed ensures c in expected && expected[c] == observed[c] {
        var i :| 0 <= i < |rules| && rules[i].comment == c;
      }
      forall c | c in expected ensures c in observed {
        var i :| 0 <= i < |rules| && rules[i].comment == c;
      }
    }
  }

  // ---- What accepted tables do

  predicate Protected(policy: Policy, p: Packet) {
    p.tcp && p.port in policy.ports && (Contains(Loopback4, p.to) || Contains(Loopback6, p.to))
  }

  predicate Authorised(policy: Policy, denyAll: bool, p: Packet) {
    !denyAll && p.uid in policy.uids
  }

  function DenyFor(p: Packet): Comment {
    if Contains(Loopback4, p.to) then DenyIpv4 else DenyIpv6
  }

  function AllowFor(p: Packet): Comment {
    if Contains(Loopback4, p.to) then AllowIpv4 else AllowIpv6
  }

  /** Which rules of an accepted table match a packet, and what they say. */
  lemma RuleMeans(policy: Policy, rules: seq<Rule>, denyAll: bool, i: nat, p: Packet, unknown: bool)
    requires Verified(policy, rules, denyAll) && i < |rules|
    ensures Matches(rules[i], p, unknown) <==>
      && Protected(policy, p)
      && (rules[i].comment == DenyFor(p) || (rules[i].comment == AllowFor(p) && Authorised(policy, denyAll, p)))
    ensures rules[i].verdict == if rules[i].comment == DenyIpv4 || rules[i].comment == DenyIpv6 then Reject else Accept
  {
    ProjectionMeans(rules[i], p, unknown);
  }

  lemma {:induction false} NoneHits(rules: seq<Rule>, p: Packet, unknown: bool)
    requires forall i :: 0 <= i < |rules| ==> !Matches(rules[i], p, unknown)
    ensures Outcome(rules, p, unknown) == Accept
  {
    if rules != [] {
      assert !Matches(rules[0], p, unknown);
      NoneHits(rules[1..], p, unknown);
    }
  }

  lemma {:induction false} FirstHits(rules: seq<Rule>, p: Packet, unknown: bool, k: nat)
    requires k < |rules| && Matches(rules[k], p, unknown) && forall i :: 0 <= i < k ==> !Matches(rules[i], p, unknown)
    ensures Outcome(rules, p, unknown) == rules[k].verdict
  {
    if k > 0 {
      assert !Matches(rules[0], p, unknown);
      FirstHits(rules[1..], p, unknown, k - 1);
    }
  }

  /** Every rule order that the check accepts leaves unprotected traffic alone and rejects everyone who is
      not authorised on every protected port. An authorised UID passes exactly when its allow rule stands
      before the deny rule. */
  lemma AcceptedTableMeans(policy: Policy, rules: seq<Rule>, denyAll: bool, p: Packet, unknown: bool)
    requires Verified(policy, rules, denyAll)
    ensures !Protected(policy, p) ==> Outcome(rules, p, unknown) == Accept
    ensures Protected(policy, p) && !Authorised(policy, denyAll, p) ==> Outcome(rules, p, unknown) == Reject
    ensures Protected(policy, p) && Authorised(policy, denyAll, p) ==>
      (Outcome(rules, p, unknown) == Accept <==>
       exists a, d :: 0 <= a < d < |rules| && rules[a].comment == AllowFor(p) && rules[d].comment == DenyFor(p))
  {
    hide Matches, Outcome, ProjectionOf;
    forall i | 0 <= i < |rules|
      ensures Matches(rules[i], p, unknown) <==>
        && Protected(policy, p)
        && (rules[i].comment == DenyFor(p) || (rules[i].comment == AllowFor(p) && Authorised(policy, denyAll, p)))
      ensures rules[i].verdict == if rules[i].comment == DenyIpv4
        || rules[i].comment == DenyIpv6 then Reject else Accept {
      RuleMeans(policy, rules, denyAll, i, p, unknown);
    }
    if !Protected(policy, p) {
      NoneHits(rules, p, unknown);
    } else {
      assert DenyFor(p) in Expected(policy, denyAll);
      var d :| 0 <= d < |rules| && rules[d].comment == DenyFor(p);
      if !Authorised(policy, denyAll, p) {
        FirstHits(rules, p, unknown, d);
      } else {
        assert AllowFor(p) in Expected(policy, denyAll);
        var a :| 0 <= a < |rules| && rules[a].comment == AllowFor(p);
        FirstHits(rules, p, unknown, if a < d then a else d);
      }
    }
  }

  lemma GeneratedIsVerified(policy: Policy, denyAll: bool)
    ensures Verified(policy, Generated(policy, denyAll), denyAll)
  {
    var rules := Generated(policy, denyAll);
    forall i | 0 <= i < |rules|
      ensures rules[i].comment in Expected(policy, denyAll)
      ensures ProjectionOf(rules[i]) == Some(Expected(policy, denyAll)[rules[i].comment]) {
      GeneratedProjects(rules[i]);
    }
    forall c | c in Expected(policy, denyAll) ensures exists i :: 0 <= i < |rules| && rules[i].comment == c {
      if denyAll {
        assert rules[0].comment == DenyIpv4 && rules[1].comment == DenyIpv6;
      } else {
        assert rules[0].comment == AllowIpv4 && rules[1].comment == AllowIpv6 && rules[2].comment == DenyIpv4
               && rules[3].comment == DenyIpv6;
      }
    }
  }

  /** The generated rules are accepted by the check and let exactly the authorised UIDs through. */
  lemma GeneratedMeans(policy: Policy, denyAll: bool, p: Packet, unknown: bool)
    ensures Verified(policy, Generated(policy, denyAll), denyAll)
    ensures Outcome(Generated(policy, denyAll), p, unknown) ==
      if Protected(policy, p) && !Authorised(policy, denyAll, p) then Reject else Accept
  {
    hide Verified, Outcome;
    var rules := Generated(policy, denyAll);
    GeneratedIsVerified(policy, denyAll);
    AcceptedTableMeans(policy, rules, denyAll, p, unknown);
    if !denyAll {
      assert rules[0].comment == AllowIpv4 && rules[1].comment == AllowIpv6 && rules[2].comment == DenyIpv4
             && rules[3].comment == DenyIpv6;
    }
  }

  lemma GeneratedProjects(rule: Rule)
    requires |rule.matches| >= 2 && rule.matches[0].Daddr? && rule.matches[1].Dport?
    requires if rule.verdict == Accept then |rule.matches| == 3 && rule.matches[2].Skuid? else |rule.matches| == 2
    ensures ProjectionOf(rule) ==
      Some(Projection(rule.matches[0].network, rule.matches[1].ports,
                      if rule.verdict == Accept then Some(rule.matches[2].uids) else None, rule.verdict))
  {
    var ms := rule.matches;
    var two := GatherTwo(ms[..2]);
    if |ms| == 2 {
      assert ms[..2] == ms;
    } else {
      assert ms[..3] == ms && ms[..|ms| - 1] == ms[..2];
    }
  }

  lemma GatherTwo(ms: seq<Match>) returns (g: Gathered)
    requires |ms| == 2 && ms[0].Daddr? && ms[1].Dport?
    ensures GatherAll(ms) == Some(g) && g == Gathered(Some(ms[0].network), Some(ms[1].ports), None)
  {
    g := Gathered(Some(ms[0].network), Some(ms[1].ports), None);
    var one := ms[..1];
    assert one[..0] == [] && one[0] == ms[0];
    assert GatherAll(one) == Some(Gathered(Some(ms[0].network), None, None));
  }

  // ---- Applying

  datatype Result = Applied | DeniedAll | FellBack | FallbackFailed | DenyFailed

  /** The kernel's table of these rules. There is no other writer. */
  class Host {
    var table: Option<seq<Rule>>
    /** The commands and readbacks that failed. */
    ghost var faults: nat

    /** One nft transaction: it may fail before or after it took effect; deleting what is not there fails. */
    method RunRuleset(rules: seq<Rule>, replace: bool) returns (ok: bool)
      modifies this
      ensures ok ==>
        table == Some(if replace then rules else (if old(table).Some? then old(table).value else []) + rules)
      ensures old(faults) <= faults && (faults == old(faults) ==> (ok <==> !replace || old(table).Some?))
    {
      if replace && table.None? {
        return false;
      }
      ok := *;
      var effective: bool := *;
      if ok || effective {
        table := Some(if replace then rules else (if table.Some? then table.value else []) + rules);
      }
      if !ok {
        faults := faults + 1;
      }
    }

    /** The readback may fail; otherwise it is the check of the actual table. */
    method Check(policy: Policy, denyAll: bool) returns (ok: bool)
      modifies this`faults
      ensures ok ==> table.Some? && Verified(policy, table.value, denyAll)
      ensures old(faults) <= faults
      ensures faults == old(faults) ==> (ok <==> table.Some? && Verified(policy, table.value, denyAll))
    {
      ok := *;
      if ok {
        ok := table.Some?;
        if ok {
          ok := VerifyTable(policy, table.value, denyAll);
        }
      } else {
        faults := faults + 1;
      }
    }

    /** _apply: success means that the table was read back and verified, and fewer failures than attempts do not
        prevent it. */
    method Apply(policy: Policy, denyAll: bool) returns (ok: bool)
      modifies this
      ensures ok ==> table.Some? && Verified(policy, table.value, denyAll)
      ensures old(faults) <= faults && (faults < old(faults) + 3 ==> ok)
    {
      hide Verified, Generated;
      var attempt := 0;
      GeneratedIsVerified(policy, denyAll);
      while attempt < APPLY_ATTEMPTS
        invariant 0 <= attempt <= APPLY_ATTEMPTS && old(faults) + attempt <= faults
      {
        var listed: bool := *;
        if listed {
          assert [] + Generated(policy, denyAll) == Generated(policy, denyAll);
          ok := RunRuleset(Generated(policy, denyAll), table.Some?);
          if ok {
            ok := Check(policy, denyAll);
            if ok {
              return;
            }
          }
        } else {
          faults := faults + 1;
        }
        attempt := attempt + 1;
      }
      ok := Check(policy, denyAll);
    }

    /** _execute: a requested policy that cannot be read, is not the compiled one or cannot be applied
        falls back to deny-all. With fewer failures than attempts the outcome is the one that was asked for. */
    method Execute(requested: bool, policy: Option<Policy>) returns (r: Result)
      modifies this
      ensures r == Applied ==> requested && table.Some? && Verified(COMPILED, table.value, false)
      ensures r == DeniedAll || r == FellBack ==> table.Some? && Verified(COMPILED, table.value, true)
      ensures faults < old(faults) + 3 ==>
        r == if !requested then DeniedAll else if policy == Some(COMPILED) then Applied else FellBack
    {
      if !requested {
        var denied := Apply(COMPILED, true);
        return if denied then DeniedAll else DenyFailed;
      }
      if policy == Some(COMPILED) {
        var ok := Apply(policy.value, false);
        if ok {
          return Applied;
        }
      }
      var ok := Apply(COMPILED, true);
      return if ok then FellBack else FallbackFailed;
    }
  }

  /** After a failed apply whose fallback succeeded, no UID reaches a protected port. */
  lemma FallbackDeniesAll(rules: seq<Rule>, p: Packet, unknown: bool)
    requires Verified(COMPILED, rules, true)
    ensures Outcome(rules, p, unknown) ==
      if p.tcp && p.port in {4001, 4002, 7496, 7497} && (Contains(Loopback4, p.to) || Contains(Loopback6, p.to))
      then Reject else Accept
  {
    AcceptedTableMeans(COMPILED, rules, true, p, unknown);
  }
}
