/**
 The policy rules that lead lookups through the tunnel's own table, and the exemption that keeps
 the tunnel's own packets out of it.

 Planning adds only what is missing and never changes a rule that is there. The results are that
 adding what was planned settles the plan, wherever the kernel lists it, and that in any settled
 list a packet with the tunnel's mark is sent to the main table by the first rule it meets.
 */
module TunnelRules {
  import opened Options
  import opened Prefixes

  const EXEMPT_PRIORITY := 1
  const MAIN := 254
  const LOCAL := 255
  const DEFAULT := 253
  const ALL_BITS := 0xFFFF_FFFF

  /** `plain` rules select by mark alone and look up a table; others have further selectors or actions. */
  datatype Rule = Rule(family: Family, table: int, priority: int, mark: nat, mask: Option<nat>, plain: bool)

  /** The kernel's marks have 32 bits. */
  function Mark(fwmark: nat): nat {
    fwmark % (ALL_BITS + 1)
  }

  /** A mark is its low 32 bits. */
  lemma MarkIsLowBits(fwmark: nat) returns (high: nat)
    ensures Mark(fwmark) < 0x1_0000_0000 && fwmark == high * 0x1_0000_0000 + Mark(fwmark)
  {
    high := fwmark / 0x1_0000_0000;
  }

  predicate MatchesTunnelRule(r: Rule, family: Family, table: int, priority: int, mark: nat) {
    && r.family == family && r.table == table && r.priority == priority && r.mark == mark && r.plain
    && (r.mask.None? || (mark != 0 && r.mask.value == ALL_BITS) || (mark == 0 && r.mask.value == 0))
  }

  // ----- The plan -----

  predicate ValidPolicy(table: int, fwmark: int) {
    table > EXEMPT_PRIORITY && table != MAIN && table != LOCAL && table != DEFAULT && fwmark >= 0
  }

  predicate IsTable(r: Rule, family: Family, table: int) {
    MatchesTunnelRule(r, family, table, table, 0)
  }

  predicate IsExempt(r: Rule, family: Family, fwmark: nat) {
    MatchesTunnelRule(r, family, MAIN, EXEMPT_PRIORITY, Mark(fwmark))
  }

  /** Another tunnel's exact exemption. */
  predicate IsDisjoint(r: Rule, family: Family, fwmark: nat) {
    r.mark != 0 && r.mark != Mark(fwmark) && MatchesTunnelRule(r, family, MAIN, EXEMPT_PRIORITY, r.mark)
  }

  /** A rule that stands where the tunnel's rules must stand, but is not one of them. */
  predicate Collides(r: Rule, family: Family, table: int, fwmark: nat) {
    r.family == family &&
    (((r.table == table || r.priority == table) && !IsTable(r, family, table)) ||
     (fwmark > 0 && r.priority == EXEMPT_PRIORITY && !IsExempt(r, family, fwmark) && !IsDisjoint(r, family, fwmark)))
  }

  function CountTable(rules: seq<Rule>, family: Family, table: int): nat {
    if rules == [] then 0
    else CountTable(rules[..|rules| - 1], family, table) + if IsTable(rules[|rules| - 1], family, table) then 1 else 0
  }

  function CountExempt(rules: seq<Rule>, family: Family, fwmark: nat): nat {
    if rules == [] then 0
    else CountExempt(rules[..|rules| - 1], family, fwmark) + if IsExempt(rules[|rules| - 1], family, fwmark) then 1
      else 0
  }

  ghost predicate Plannable(rules: seq<Rule>, family: Family, table: int, fwmark: int) {
    && 1 < table && table !in {253, 254, 255} && fwmark >= 0
    && (forall i | 0 <= i < |rules| :: !Collides(rules[i], family, table, fwmark))
    && CountTable(rules, family, table) <= 1 && (fwmark > 0 ==> CountExempt(rules, family, fwmark) <= 1)
  }

  function ExemptRule(family: Family, fwmark: nat): Rule {
    Rule(family, MAIN, EXEMPT_PRIORITY, Mark(fwmark), None, true)
  }

  function TableRule(family: Family, table: int): Rule {
    Rule(family, table, table, 0, None, true)
  }

  function Missing(rules: seq<Rule>, family: Family, table: int, fwmark: nat): seq<Rule> {
    (if fwmark > 0 && CountExempt(rules, family, fwmark) == 0 then [ExemptRule(family, fwmark)] else []) +
    (if CountTable(rules, family, table) == 0 then [TableRule(family, table)] else [])
  }

  lemma {:induction false} CountHit(rules: seq<Rule>, family: Family, table: int, fwmark: nat, k: nat)
    requires k < |rules|
    ensures CountTable(rules[..k + 1], family, table) <= CountTable(rules, family, table)
    ensures CountExempt(rules[..k + 1], family, fwmark) <= CountExempt(rules, family, fwmark)
  {
    if k == |rules| - 1 {
      assert rules[..k + 1] == rules;
    } else {
      var front := rules[..|rules| - 1];
      CountHit(front, family, table, fwmark, k);
      assert front[..k + 1] == rules[..k + 1];
    }
  }

  /** The missing rules, or none when a foreign or duplicate rule is in the way. */
  method PlanTunnelRules(rules: seq<Rule>, family: Family, table: int, fwmark: int) returns (missing: Option<seq<Rule>>)
    ensures missing.Some? <==> Plannable(rules, family, table, fwmark)
    ensures missing.Some? ==> missing.value == Missing(rules, family, table, fwmark)
  {
    if !ValidPolicy(table, fwmark) {
      return None;
    }
    var foundTable, foundMark := false, fwmark == 0;
    for k := 0 to |rules|
      invariant forall i | 0 <= i < k :: !Collides(rules[i], family, table, fwmark)
      invariant CountTable(rules[..k], family, table) == if foundTable then 1 else 0
      invariant fwmark == 0 ==> foundMark
      invariant fwmark > 0 ==> CountExempt(rules[..k], family, fwmark) == if foundMark then 1 else 0
    {
      assert rules[..k + 1][..k] == rules[..k];
      CountHit(rules, family, table, fwmark, k);
      var r := rules[k];
      if r.family != family {
        continue;
      }
      if r.table == table || r.priority == table {
        if !IsTable(r, family, table) || foundTable {
          return None;
        }
        foundTable := true;
      }
      if fwmark > 0 && r.priority == EXEMPT_PRIORITY {
        if IsExempt(r, family, fwmark) {
          if foundMark {
            return None;
          }
          foundMark := true;
        } else if r.mark != 0 && r.mark != Mark(fwmark) && MatchesTunnelRule(r, family, MAIN, EXEMPT_PRIORITY, r.mark) {
          continue;
        } else {
          return None;
        }
      }
    }
    assert rules[..|rules|] == rules;
    var pending: seq<Rule> := [];
    if !foundMark {
      pending := pending + [ExemptRule(family, fwmark)];
    }
    if !foundTable {
      pending := pending + [TableRule(family, table)];
    }
    return Some(pending);
  }

  // ----- Adding what is missing -----

  /** How the kernel may list a rule that was added: with no mask, or with the full one. */
  predicate Listed(r: Rule, added: Rule) {
    r == added || r == added.(mask := Some(if added.mark != 0 then ALL_BITS else 0))
  }

  lemma {:induction false} CountConcat(a: seq<Rule>, b: seq<Rule>, family: Family, table: int, fwmark: nat)
    ensures CountTable(a + b, family, table) == CountTable(a, family, table) + CountTable(b, family, table)
    ensures CountExempt(a + b, family, fwmark) == CountExempt(a, family, fwmark) + CountExempt(b, family, fwmark)
  {
    if b == [] {
      assert a + b == a;
    } else {
      CountConcat(a, b[..|b| - 1], family, table, fwmark);
      assert (a + b)[..|a + b| - 1] == a + b[..|b| - 1];
    }
  }

  lemma CountInserted(a: seq<Rule>, x: Rule, b: seq<Rule>, family: Family, table: int, fwmark: nat)
    ensures CountTable(a + [x] + b, family, table) == CountTable(a + b, family, table) +
              if IsTable(x, family, table) then 1 else 0
    ensures CountExempt(a + [x] + b, family, fwmark) == CountExempt(a + b, family, fwmark) +
              if IsExempt(x, family, fwmark) then 1 else 0
  {
    CountConcat(a, b, family, table, fwmark);
    CountConcat(a, [x], family, table, fwmark);
    CountConcat(a + [x], b, family, table, fwmark);
    assert [x][..0] == [];
    assert CountTable([x], family, table) == CountTable([], family, table) + if IsTable(x, family, table) then 1 else 0;
    assert CountExempt([x], family, fwmark) == CountExempt([], family, fwmark) + if IsExempt(x, family, fwmark) then 1
      else 0;
  }

  lemma ListedStillMatches(x: Rule, family: Family, table: int, fwmark: nat)
    requires ValidPolicy(table, fwmark)
    ensures Listed(x, TableRule(family, table)) ==>
              IsTable(x, family, table) && !IsExempt(x, family, fwmark) && !Collides(x, family, table, fwmark)
    ensures fwmark > 0 && Listed(x, ExemptRule(family, fwmark)) ==>
              IsExempt(x, family, fwmark) && !IsTable(x, family, table) && !Collides(x, family, table, fwmark)
  {
  }

  /** Adding any planned rule, wherever the kernel lists it, leaves exactly the rest of the plan. */
  lemma AddingSettlesOne(a: seq<Rule>, x: Rule, b: seq<Rule>, family: Family, table: int, fwmark: int, j: nat)
    requires Plannable(a + b, family, table, fwmark) && j < |Missing(a + b, family, table, fwmark)|
    requires Listed(x, Missing(a + b, family, table, fwmark)[j])
    ensures Plannable(a + [x] + b, family, table, fwmark)
    ensures var missing := Missing(a + b, family, table, fwmark);
            Missing(a + [x] + b, family, table, fwmark) == missing[..j] + missing[j + 1..]
  {
    var missing := Missing(a + b, family, table, fwmark);
    assert missing[j] == TableRule(family, table) || (fwmark > 0 && missing[j] == ExemptRule(family, fwmark));
    ListedStillMatches(x, family, table, fwmark);
    CountInserted(a, x, b, family, table, fwmark);
    var all := a + [x] + b;
    forall i | 0 <= i < |all|
      ensures !Collides(all[i], family, table, fwmark)
    {
      if i < |a| {
        assert all[i] == (a + b)[i];
      } else if i > |a| {
        assert all[i] == (a + b)[i - 1];
      }
    }
  }

  /** Tunnels coexist: another tunnel's exemption, however the kernel lists it, neither blocks nor changes the plan. */
  lemma OtherTunnelIsNoObstacle(a: seq<Rule>, x: Rule, b: seq<Rule>, family: Family, table: int, fwmark: int,
                                other: nat)
    requires Plannable(a + b, family, table, fwmark)
    requires Mark(other) != 0 && Mark(other) != Mark(fwmark) && Listed(x, ExemptRule(family, other))
    ensures Plannable(a + [x] + b, family, table, fwmark)
    ensures Missing(a + [x] + b, family, table, fwmark) == Missing(a + b, family, table, fwmark)
  {
    CountInserted(a, x, b, family, table, fwmark);
    var all := a + [x] + b;
    assert !Collides(x, family, table, fwmark);
    forall i | 0 <= i < |all|
      ensures !Collides(all[i], family, table, fwmark)
    {
      if i < |a| {
        assert all[i] == (a + b)[i];
      } else if i > |a| {
        assert all[i] == (a + b)[i - 1];
      }
    }
  }

  /** A rule of the other family changes nothing for this one. */
  lemma OtherFamily(a: seq<Rule>, x: Rule, b: seq<Rule>, family: Family, table: int, fwmark: int)
    requires x.family != family && Plannable(a + b, family, table, fwmark)
    ensures Plannable(a + [x] + b, family, table, fwmark)
    ensures Missing(a + [x] + b, family, table, fwmark) == Missing(a + b, family, table, fwmark)
  {
    CountInserted(a, x, b, family, table, fwmark);
    var all := a + [x] + b;
    forall i | 0 <= i < |all|
      ensures !Collides(all[i], family, table, fwmark)
    {
      if i < |a| {
        assert all[i] == (a + b)[i];
      } else if i > |a| {
        assert all[i] == (a + b)[i - 1];
      }
    }
  }

  // ----- What a settled list does to a packet -----

  function EffectiveMask(r: Rule): nat {
    if r.mask.Some? then r.mask.value else if r.mark != 0 then ALL_BITS else 0
  }

  /** Bitwise and. */
  function And(a: nat, b: nat): nat {
    if a == 0 || b == 0 then 0 else 2 * And(a / 2, b / 2) + (a % 2) * (b % 2)
  }

  function Ones(k: nat): nat {
    if k == 0 then 0 else 2 * Ones(k - 1) + 1
  }

  lemma {:induction false} AndOnes(a: nat, k: nat)
    requires a <= Ones(k)
    ensures And(a, Ones(k)) == a
  {
    if a != 0 {
      AndOnes(a / 2, k - 1);
      assert Ones(k) / 2 == Ones(k - 1) && Ones(k) % 2 == 1;
      assert (a % 2) * 1 == a % 2;
    }
  }

  lemma AllBits()
    ensures Ones(32) == ALL_BITS
  {
    assert Ones(8) == 0xFF;
    assert Ones(16) == 0xFFFF;
    assert Ones(24) == 0xFF_FFFF;
  }

  /** `selects` says whether a rule that is not plain also matches the packet otherwise. */
  predicate PacketMatches(r: Rule, family: Family, mark: nat, selects: Rule -> bool) {
    r.family == family && And(mark, EffectiveMask(r)) == r.mark && (r.plain || selects(r))
  }

  /** The rule a packet takes among those at priority 1 or later. */
  ghost predicate FirstMatch(rules: seq<Rule>, i: nat, family: Family, mark: nat, selects: Rule -> bool) {
    && i < |rules| && rules[i].priority >= EXEMPT_PRIORITY && PacketMatches(rules[i], family, mark, selects)
    && forall j | 0 <= j < |rules| && EXEMPT_PRIORITY <= rules[j].priority &&
         PacketMatches(rules[j], family, mark, selects) ::
         rules[i].priority <= rules[j].priority
  }

  /** An exact rule takes the packets with its mark; one without a mark takes every packet. */
  lemma ExactRule(r: Rule, family: Family, table: int, priority: int, mark: nat, selects: Rule -> bool)
    requires MatchesTunnelRule(r, family, table, priority, r.mark) && mark <= ALL_BITS
    ensures PacketMatches(r, family, mark, selects) <==> r.mark == mark || r.mark == 0
  {
    AllBits();
    AndOnes(mark, 32);
  }

  lemma {:induction false} CountFrom(rules: seq<Rule>, family: Family, fwmark: nat) returns (i: nat)
    requires CountExempt(rules, family, fwmark) > 0
    ensures i < |rules| && IsExempt(rules[i], family, fwmark)
  {
    if IsExempt(rules[|rules| - 1], family, fwmark) {
      i := |rules| - 1;
    } else {
      i := CountFrom(rules[..|rules| - 1], family, fwmark);
    }
  }

  /**
   With the plan settled, the first rule a packet with the tunnel's mark meets at priority 1 or
   later sends it to the main table, whatever other exemptions share that priority.
   */
  lemma MarkedPacketsUseMain(rules: seq<Rule>, family: Family, table: int, fwmark: int, selects: Rule -> bool, i: nat)
    requires fwmark > 0 && Plannable(rules, family, table, fwmark) && Missing(rules, family, table, fwmark) == []
    requires FirstMatch(rules, i, family, Mark(fwmark), selects)
    ensures rules[i].table == MAIN && rules[i].priority == EXEMPT_PRIORITY && IsExempt(rules[i], family, fwmark)
  {
    var mark := Mark(fwmark);
    var k := CountFrom(rules, family, fwmark);
    ExactRule(rules[k], family, MAIN, EXEMPT_PRIORITY, mark, selects);
    assert !Collides(rules[i], family, table, fwmark);
    if IsDisjoint(rules[i], family, fwmark) {
      ExactRule(rules[i], family, MAIN, EXEMPT_PRIORITY, mark, selects);
    }
  }

  /** The exemption is always met: some rule at priority 1 or later takes the packet. */
  lemma MarkedPacketsAreMet(rules: seq<Rule>, family: Family, table: int, fwmark: int, selects: Rule -> bool)
    returns (i: nat)
    requires fwmark > 0 && Plannable(rules, family, table, fwmark) && Missing(rules, family, table, fwmark) == []
    ensures FirstMatch(rules, i, family, Mark(fwmark), selects)
  {
    i := CountFrom(rules, family, fwmark);
    ExactRule(rules[i], family, MAIN, EXEMPT_PRIORITY, Mark(fwmark), selects);
  }

  // ----- Ensuring the rules -----

  ghost predicate Settled(rules: seq<Rule>, family: Family, table: int, fwmark: int) {
    Plannable(rules, family, table, fwmark) && Missing(rules, family, table, fwmark) == []
  }

  /** What adding a planned rule at the end does to both families' plans. */
  lemma AddedAtEnd(rules: seq<Rule>, x: Rule, family: Family, other: Family, table: int, fwmark: int)
    requires family != other && Plannable(rules, family, table, fwmark) && Plannable(rules, other, table, fwmark)
    requires Missing(rules, family, table, fwmark) != [] && Listed(x, Missing(rules, family, table, fwmark)[0])
    ensures Plannable(rules + [x], family, table, fwmark)
    ensures Missing(rules + [x], family, table, fwmark) == Missing(rules, family, table, fwmark)[1..]
    ensures Plannable(rules + [x], other, table, fwmark)
    ensures Missing(rules + [x], other, table, fwmark) == Missing(rules, other, table, fwmark)
  {
    assert rules + [] == rules && rules + [x] + [] == rules + [x];
    AddingSettlesOne(rules, x, [], family, table, fwmark, 0);
    OtherFamily(rules, x, [], other, table, fwmark);
  }

  class Policy {
    var rules: seq<Rule>
    /** How many additions the kernel has refused. */
    ghost var faults: nat

    constructor (rules: seq<Rule>)
      ensures this.rules == rules
    {
      this.rules := rules;
      faults := 0;
    }

    method Add(r: Rule) returns (ok: bool)
      modifies this
      ensures if ok then |rules| == |old(rules)| + 1 && rules == old(rules) + [rules[|old(rules)|]] &&
                Listed(rules[|old(rules)|], r) && faults == old(faults)
              else rules == old(rules) && faults > old(faults)
    {
      ok := *;
      if !ok {
        faults := faults + 1;
        return;
      }
      if * {
        rules := rules + [r];
      } else {
        rules := rules + [r.(mask := Some(if r.mark != 0 then ALL_BITS else 0))];
      }
    }

    /** Adds one family's missing rules. */
    method AddMissing(missing: seq<Rule>, ghost family: Family, ghost other: Family, ghost table: int,
                      ghost fwmark: int) returns (ok: bool)
      requires family != other && Plannable(rules, family, table, fwmark) && Plannable(rules, other, table, fwmark)
      requires missing == Missing(rules, family, table, fwmark)
      modifies this
      ensures old(rules) <= rules && (if ok then faults == old(faults) else faults > old(faults))
      ensures ok ==> Settled(rules, family, table, fwmark)
      ensures ok ==>
                Plannable(rules, other, table, fwmark) &&
                Missing(rules, other, table, fwmark) == Missing(old(rules), other, table, fwmark)
    {
      for k := 0 to |missing|
        invariant old(rules) <= rules && faults == old(faults)
        invariant Plannable(rules, family, table, fwmark) && Missing(rules, family, table, fwmark) == missing[k..]
        invariant Plannable(rules, other, table, fwmark)
        invariant Missing(rules, other, table, fwmark) == Missing(old(rules), other, table, fwmark)
      {
        ghost var before := rules;
        ok := Add(missing[k]);
        if !ok {
          return;
        }
        AddedAtEnd(before, rules[|before|], family, other, table, fwmark);
      }
      ok := true;
    }

    /** Plans both families before adding to either, and checks both again. */
    method EnsureRouteRule(table: int, fwmark: int) returns (ok: bool)
      modifies this
      ensures old(rules) <= rules
      ensures !(Plannable(old(rules), V4, table, fwmark) && Plannable(old(rules), V6, table, fwmark)) ==>
                !ok && rules == old(rules)
      ensures Plannable(old(rules), V4, table, fwmark) && Plannable(old(rules), V6, table, fwmark) ==>
                (faults == old(faults) ==> ok)
      ensures ok ==> Settled(rules, V4, table, fwmark) && Settled(rules, V6, table, fwmark)
    {
      var four := PlanTunnelRules(rules, V4, table, fwmark);
      if four.None? {
        return false;
      }
      var six := PlanTunnelRules(rules, V6, table, fwmark);
      if six.None? {
        return false;
      }
      ok := AddMissing(four.value, V4, V6, table, fwmark);
      if !ok {
        return;
      }
      ok := AddMissing(six.value, V6, V4, table, fwmark);
      if !ok {
        return;
      }
      four := PlanTunnelRules(rules, V4, table, fwmark);
      six := PlanTunnelRules(rules, V6, table, fwmark);
      ok := four == Some([]) && six == Some([]);
    }
  }
}
