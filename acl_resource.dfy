/** The handlers of resource `ibm_is_network_acl` against the remote ACL:
    clearRules (collect every rule page by page, then delete each),
    createInlineRules (one create per configured rule, in order), the
    rule-flattening read, and create, read, update, delete and exists. */
module NetworkAclResource {
  import opened Wrappers
  import opened RemoteApi
  import opened Pagination
  import opened NetworkAclRules
  import opened NetworkAclService

  datatype AclError = Invalid(ValidationError) | Remote(ApiError)

  /** The resource's own state: its id and the attributes a read writes. */
  class AclResourceData {
    var id: string
    var name: string
    var rules: seq<RuleRecord>

    constructor (id: string)
      ensures this.id == id && name == "" && rules == []
    {
      this.id := id;
      name := "";
      rules := [];
    }
  }

  // ------------------------------------------------------------- clearRules

  /** Calls clearRules makes on a reachable ACL of `n` rules when none fails:
      every list page, then one delete per rule. */
  function ClearCalls(n: nat, limit: nat): nat
    requires limit > 0
  {
    PagesFrom(n, limit, 0) + n
  }

  /** One list call of the walk, from the cursor of offset `pos` after
      `made` of the walk's `total` calls: on success the page continues the
      table where the rules collected so far stop, and either ends the walk or
      hands out the cursor of the next offset. */
  method ListStep(acl: NetworkAcl, aclId: string, start: string, ghost pos: nat, ghost made: nat, ghost total: nat)
    returns (r: Result<Page<RuleItem>, ApiError>)
    requires acl.Valid() && CursorAt(acl.rules, RuleId, pos, start)
    requires made + PagesFrom(|acl.rules|, acl.limit, pos) == total
    modifies acl`calls
    ensures acl.calls == old(acl.calls) + 1
    ensures r.Ok? <==> old(acl.calls) !in acl.faults && acl.Reachable(aclId)
    ensures r.Err? ==> r.error == if old(acl.calls) in acl.faults then Unavailable else HttpError(NotFoundStatus)
    ensures r.Ok? ==>
      var p := r.value;
      && pos + |p.items| <= |acl.rules|
      && acl.rules[..pos] + p.items == acl.rules[..pos + |p.items|]
      && (p.next == "" ==> pos + |p.items| == |acl.rules| && made + 1 == total)
      && (p.next != "" ==>
            && 0 < |p.items| && pos + |p.items| < |acl.rules|
            && made + 1 + PagesFrom(|acl.rules|, acl.limit, pos + |p.items|) == total
            && CursorAt(acl.rules, RuleId, pos + |p.items|, p.next))
  {
    CursorLists(acl.rules, RuleId, acl.limit, pos, start);
    r := acl.ListRules(aclId, start);
    PageWalkStep(acl.rules, RuleId, acl.limit, pos, made, total);
  }

  /** clearRules' first loop: list pages following the cursor until it is
      empty, collecting the rules in server order. */
  method ListAllRules(acl: NetworkAcl, aclId: string) returns (r: Result<seq<RuleItem>, ApiError>)
    requires acl.Valid()
    modifies acl`calls
    ensures !acl.Reachable(aclId) ==>
      && r == Err(if old(acl.calls) in acl.faults then Unavailable else HttpError(NotFoundStatus))
      && acl.calls == old(acl.calls) + 1
    ensures acl.Reachable(aclId) ==>
      var lists := PagesFrom(|acl.rules|, acl.limit, 0);
      var f := FirstFault(acl.faults, old(acl.calls), lists);
      && (r.Ok? <==> f == lists)
      && (r.Ok? ==> r.value == acl.rules)
      && (r.Err? ==> r.error == Unavailable)
      && acl.calls == old(acl.calls) + (if f < lists then f + 1 else f)
  {
    ghost var calls0 := acl.calls;
    ghost var rules0 := acl.rules;
    ghost var n := |rules0|;
    ghost var lists := PagesFrom(n, acl.limit, 0);

    var start := "";
    var allrecs: seq<RuleItem> := [];
    ghost var pos: nat := 0;
    ghost var pages: nat := 0;
    var done := false;
    while !done
      invariant acl.rules == rules0
      invariant pos <= n && allrecs == rules0[..pos]
      invariant acl.calls == calls0 + pages
      invariant FirstFault(acl.faults, calls0, pages) == pages
      invariant !done ==> pages + PagesFrom(n, acl.limit, pos) == lists
      invariant !done ==> CursorAt(rules0, RuleId, pos, start)
      invariant done ==> pos == n && pages == lists
      invariant done || pages > 0 ==> acl.Reachable(aclId)
      decreases (if done then 0 else 1) + n - pos
    {
      if acl.Reachable(aclId) {
        FirstFaultStep(acl.faults, calls0, pages, lists);
      }
      var listed := ListStep(acl, aclId, start, pos, pages, lists);
      if listed.Err? {
        return Err(listed.error);
      }
      var page := listed.value;
      start := page.next;
      allrecs := allrecs + page.items;
      pos := pos + |page.items|;
      pages := pages + 1;
      if start == "" {
        done := true;
      }
    }
    assert allrecs == acl.rules;
    r := Ok(allrecs);
  }

  /** clearRules' second loop: one delete per collected rule, in order. */
  method DeleteListed(acl: NetworkAcl, aclId: string, allrecs: seq<RuleItem>) returns (r: Outcome<ApiError>)
    requires acl.Valid() && acl.Reachable(aclId) && acl.rules == allrecs
    modifies acl`rules, acl`calls
    ensures acl.Valid()
    ensures var f := FirstFault(acl.faults, old(acl.calls), |allrecs|);
      && (r.Pass? <==> f == |allrecs|)
      && (r.Fail? ==> r.error == Unavailable)
      && acl.rules == allrecs[f..]
      && acl.calls == old(acl.calls) + (if f < |allrecs| then f + 1 else f)
  {
    ghost var calls0 := acl.calls;
    var i := 0;
    while i < |allrecs|
      invariant 0 <= i <= |allrecs|
      invariant acl.Valid() && acl.rules == allrecs[i..]
      invariant acl.calls == calls0 + i
      invariant FirstFault(acl.faults, calls0, i) == i
    {
      FirstFaultStep(acl.faults, calls0, i, |allrecs|);
      var failed := acl.DeleteRule(aclId, RuleId(allrecs[i]));
      if failed.Some? {
        return Fail(failed.value);
      }
      assert allrecs[i..][1..] == allrecs[i + 1..];
      i := i + 1;
    }
    r := Pass;
  }

  /** clearRules: collect every rule, then delete each; the first failing
      call ends it. */
  method ClearRules(acl: NetworkAcl, aclId: string) returns (r: Outcome<ApiError>)
    requires acl.Valid()
    modifies acl`rules, acl`calls
    ensures acl.Valid()
    ensures !acl.Reachable(aclId) ==>
      && r == Fail(if old(acl.calls) in acl.faults then Unavailable else HttpError(NotFoundStatus))
      && acl.rules == old(acl.rules) && acl.calls == old(acl.calls) + 1
    ensures acl.Reachable(aclId) ==>
      var n := |old(acl.rules)|;
      var lists := PagesFrom(n, acl.limit, 0);
      var f := FirstFault(acl.faults, old(acl.calls), lists + n);
      && (r.Pass? <==> f == lists + n)
      && (r.Pass? ==> acl.rules == [])
      && (r.Fail? ==> r.error == Unavailable)
      && acl.rules == (if f <= lists then old(acl.rules) else old(acl.rules)[f - lists..])
      && acl.calls == old(acl.calls) + (if f < lists + n then f + 1 else f)
  {
    ghost var calls0 := acl.calls;
    ghost var lists := PagesFrom(|acl.rules|, acl.limit, 0);
    FirstFaultSplit(acl.faults, calls0, lists, |acl.rules|);
    var listed := ListAllRules(acl, aclId);
    if listed.Err? {
      return Fail(listed.error);
    }
    r := DeleteListed(acl, aclId, listed.value);
  }

  // ------------------------------------------------------ createInlineRules

  /** The rule table after the first `n` rules of `input` were created one
      by one at its end, each under an id the table did not yet use. */
  function AppendRules(rules: seq<RuleItem>, input: seq<InlineRule>, n: nat): (out: seq<RuleItem>)
    requires n <= |input|
    ensures |out| == |rules| + n
  {
    if n == 0 then rules
    else
      var front := AppendRules(rules, input, n - 1);
      front + [RuleItemOf(Prototype(input[n - 1]), FreshId(front))]
  }

  /** The table keeps the rules it had, in place. */
  lemma {:induction false} AppendRulesKeeps(rules: seq<RuleItem>, input: seq<InlineRule>, n: nat)
    requires n <= |input|
    ensures AppendRules(rules, input, n)[..|rules|] == rules
  {
    if n > 0 {
      AppendRulesKeeps(rules, input, n - 1);
      var prev := AppendRules(rules, input, n - 1);
      assert AppendRules(rules, input, n)[..|rules|] == prev[..|rules|];
    }
  }

  /** Each created rule is the prototype of its configured rule, in
      configuration order. */
  lemma {:induction false} AppendRulesCreated(rules: seq<RuleItem>, input: seq<InlineRule>, n: nat, i: nat)
    requires i < n <= |input|
    ensures var out := AppendRules(rules, input, n);
      out[|rules| + i] == RuleItemOf(Prototype(input[i]), RuleId(out[|rules| + i]))
  {
    var prev := AppendRules(rules, input, n - 1);
    if i < n - 1 {
      AppendRulesCreated(rules, input, n - 1, i);
      assert AppendRules(rules, input, n)[|rules| + i] == prev[|rules| + i];
    }
  }

  /** Created rules get ids the table does not hold yet, so ids stay unique. */
  lemma {:induction false} AppendRulesUnique(rules: seq<RuleItem>, input: seq<InlineRule>, n: nat)
    requires n <= |input| && UniqueKeys(rules, RuleId)
    ensures UniqueKeys(AppendRules(rules, input, n), RuleId)
  {
    if n > 0 {
      AppendRulesUnique(rules, input, n - 1);
      var front := AppendRules(rules, input, n - 1);
      FreshIdUnused(front);
      RuleItemOfFields(Prototype(input[n - 1]), FreshId(front));
    }
  }

  /** One iteration of createInlineRules, the `i`-th call since `c0`: the
      template of rule `i`, then its create call. On success the table holds
      one more configured rule and no call so far has failed; on failure the
      table is unchanged and this call is the first faulty one. */
  method CreateStep(acl: NetworkAcl, aclId: string, ghost base: seq<RuleItem>, ghost c0: nat,
                    input: seq<InlineRule>, i: nat)
    returns (r: Result<RuleItem, ApiError>)
    requires acl.Valid() && i < |input| && acl.rules == AppendRules(base, input, i)
    requires acl.calls == c0 + i && FirstFault(acl.faults, c0, i) == i
    modifies acl`rules, acl`calls
    ensures acl.Valid() && acl.calls == c0 + i + 1
    ensures r.Ok? ==>
      && acl.Reachable(aclId) && FirstFault(acl.faults, c0, i + 1) == i + 1
      && acl.rules == AppendRules(base, input, i + 1)
    ensures r.Err? ==> acl.rules == old(acl.rules)
    ensures r.Err? && acl.Reachable(aclId) ==>
      FirstFault(acl.faults, c0, |input|) == i && r.error == Unavailable
    ensures r.Err? && !acl.Reachable(aclId) ==>
      r.error == if c0 + i in acl.faults then Unavailable else HttpError(NotFoundStatus)
  {
    FirstFaultStep(acl.faults, c0, i, |input|);
    var template := BuildRuleTemplate(input[i]);
    r := acl.CreateRule(aclId, template);
  }

  /** createInlineRules: one create per configured rule, in order, stopping
      at the first error. */
  method CreateInlineRules(acl: NetworkAcl, aclId: string, input: seq<InlineRule>) returns (r: Outcome<ApiError>)
    requires acl.Valid()
    modifies acl`rules, acl`calls
    ensures acl.Valid()
    ensures !acl.Reachable(aclId) ==>
      && acl.rules == old(acl.rules)
      && (|input| == 0 ==> r.Pass? && acl.calls == old(acl.calls))
      && (|input| > 0 ==>
            && acl.calls == old(acl.calls) + 1
            && r == Fail(if old(acl.calls) in acl.faults then Unavailable else HttpError(NotFoundStatus)))
    ensures acl.Reachable(aclId) ==>
      var f := FirstFault(acl.faults, old(acl.calls), |input|);
      && (r.Pass? <==> f == |input|)
      && (r.Fail? ==> r.error == Unavailable)
      && acl.rules == AppendRules(old(acl.rules), input, f)
      && acl.calls == old(acl.calls) + (if f < |input| then f + 1 else f)
  {
    ghost var rules0 := acl.rules;
    ghost var c0 := acl.calls;
    var i := 0;
    while i <= |input| - 1
      invariant 0 <= i <= |input| && acl.Valid()
      invariant acl.rules == AppendRules(rules0, input, i)
      invariant acl.calls == c0 + i
      invariant FirstFault(acl.faults, c0, i) == i
      invariant i > 0 ==> acl.Reachable(aclId)
    {
      var created := CreateStep(acl, aclId, rules0, c0, input, i);
      if created.Err? {
        assert !acl.Reachable(aclId) ==> i == 0 && acl.rules == rules0;
        return Fail(created.error);
      }
      i := i + 1;
    }
    r := Pass;
  }

  // --------------------------------------------------------- read back

  /** nwaclGet's flattening loop: one record per rule, in server order. */
  method FlattenRules(items: seq<RuleItem>, subnets: nat) returns (records: seq<RuleRecord>)
    ensures |records| == |items|
    ensures forall i :: 0 <= i < |items| ==> records[i] == FlattenRule(items[i], subnets)
  {
    records := [];
    if |items| > 0 {
      for i := 0 to |items|
        invariant |records| == i
        invariant forall j :: 0 <= j < i ==> records[j] == FlattenRule(items[j], subnets)
      {
        var rule := FlattenRule(items[i], subnets);
        records := records + [rule];
      }
    }
  }

  const PortKeys: set<string> := {KeyPortMin, KeyPortMax, KeySourcePortMin, KeySourcePortMax}

  /** A configured rule whose chosen block sets every one of its keys (the
      tcp and udp port fields always do, through their defaults), each block
      list holding at most one block as the schema allows. */
  predicate CompleteBlocks(rule: InlineRule)
  {
    && |rule.icmp| <= 1 && |rule.tcp| <= 1 && |rule.udp| <= 1
    && (|rule.icmp| == 1 && rule.icmp[0].Some? ==> rule.icmp[0].value.Keys == {KeyCode, KeyType})
    && (|rule.tcp| == 1 ==> rule.tcp[0].Keys == PortKeys)
    && (|rule.udp| == 1 ==> rule.udp[0].Keys == PortKeys)
  }

  /** The icmp blocks of a configured rule as maps, a nil block (no field
      set) being the empty map. */
  function IcmpMaps(icmp: seq<Option<map<string, int>>>): seq<map<string, int>>
    decreases |icmp|
  {
    if |icmp| == 0 then []
    else [if icmp[0].Some? then icmp[0].value else map[]] + IcmpMaps(icmp[1..])
  }

  /** A record read back describes exactly the configured rule. */
  predicate RecordMatches(rec: RuleRecord, rule: InlineRule)
  {
    && rec.name == rule.name && rec.action == rule.action && rec.direction == rule.direction
    && rec.source == rule.source && rec.destination == rule.destination
    && rec.icmp == Some(IcmpMaps(rule.icmp))
    && rec.tcp == Some(rule.tcp) && rec.udp == Some(rule.udp)
  }

  lemma PortBlockOfComplete(block: map<string, int>)
    requires block.Keys == PortKeys
    ensures PortBlock(Lookup(block, KeyPortMin), Lookup(block, KeyPortMax),
                      Lookup(block, KeySourcePortMin), Lookup(block, KeySourcePortMax)) == block
  {
    var m := PortBlock(Lookup(block, KeyPortMin), Lookup(block, KeyPortMax),
                       Lookup(block, KeySourcePortMin), Lookup(block, KeySourcePortMax));
    assert m.Keys == block.Keys;
  }

  lemma IcmpBlockOfComplete(block: map<string, int>)
    requires block.Keys == {KeyCode, KeyType}
    ensures IcmpBlock(Lookup(block, KeyCode), Lookup(block, KeyType)) == block
  {
    var m := IcmpBlock(Lookup(block, KeyCode), Lookup(block, KeyType));
    assert KeyCode in block && KeyType in block;
    assert m.Keys == block.Keys;
  }

  /** Write then read: a valid rule with complete blocks, created under any
      id, reads back as the very rule configured. */
  lemma CreatedRuleReadsBack(rule: InlineRule, id: string, subnets: nat)
    requires RuleCheck(rule).Pass? && CompleteBlocks(rule)
    ensures RecordMatches(FlattenRule(RuleItemOf(Prototype(rule), id), subnets), rule)
  {
    PrototypeFields(rule);
    RuleItemOfFields(Prototype(rule), id);
    if |rule.icmp| > 0 {
      var item := RuleItemOf(Prototype(rule), id);
      if rule.icmp[0].Some? {
        IcmpBlockOfComplete(rule.icmp[0].value);
      }
      assert rule.icmp[1..] == [];
      assert IcmpMaps(rule.icmp) == [if rule.icmp[0].Some? then rule.icmp[0].value else map[]];
      assert item.IcmpRule?;
      assert IcmpBlock(item.code, item.icmpType) == IcmpMaps(rule.icmp)[0];
    } else if |rule.tcp| > 0 {
      PortBlockOfComplete(rule.tcp[0]);
      assert rule.tcp == [rule.tcp[0]];
    } else if |rule.udp| > 0 {
      PortBlockOfComplete(rule.udp[0]);
      assert rule.udp == [rule.udp[0]];
    }
  }

  /** Read drops a lone ICMP type or code: unless both are set the element
      read back is the empty map. */
  lemma IcmpPartialReadsEmpty(rule: InlineRule, id: string, subnets: nat)
    requires |rule.icmp| > 0 && rule.icmp[0].Some?
    requires KeyCode !in rule.icmp[0].value || KeyType !in rule.icmp[0].value
    ensures FlattenRule(RuleItemOf(Prototype(rule), id), subnets).icmp == Some([map[]])
  {
  }

  /** The whole table a create leaves reads back rule for rule as
      configured, for the first `n` configured rules. */
  lemma CreatedTableReadsBack(rules: seq<RuleItem>, input: seq<InlineRule>, n: nat, subnets: nat)
    requires n <= |input|
    requires forall i :: 0 <= i < n ==> RuleCheck(input[i]).Pass? && CompleteBlocks(input[i])
    ensures forall i :: 0 <= i < n ==>
      RecordMatches(FlattenRule(AppendRules(rules, input, n)[|rules| + i], subnets), input[i])
  {
    forall i | 0 <= i < n
      ensures RecordMatches(FlattenRule(AppendRules(rules, input, n)[|rules| + i], subnets), input[i])
    {
      CreatedItemReadsBack(rules, input, n, i, subnets);
    }
  }

  /** One configured rule of the table reads back as configured. */
  lemma CreatedItemReadsBack(rules: seq<RuleItem>, input: seq<InlineRule>, n: nat, i: nat, subnets: nat)
    requires i < n <= |input| && RuleCheck(input[i]).Pass? && CompleteBlocks(input[i])
    ensures RecordMatches(FlattenRule(AppendRules(rules, input, n)[|rules| + i], subnets), input[i])
  {
    AppendRulesCreated(rules, input, n, i);
    CreatedRuleReadsBack(input[i], RuleId(AppendRules(rules, input, n)[|rules| + i]), subnets);
  }

  /** The rule replacement create runs on the ACL it just made: clearRules,
      then createInlineRules; the first failing call of the whole sequence
      ends it. */
  method ReplaceRules(acl: NetworkAcl, aclId: string, input: seq<InlineRule>) returns (r: Outcome<ApiError>)
    requires acl.Valid() && acl.Reachable(aclId)
    modifies acl`rules, acl`calls
    ensures acl.Valid()
    ensures var total := ClearCalls(|old(acl.rules)|, acl.limit) + |input|;
      r.Pass? <==> FirstFault(acl.faults, old(acl.calls), total) == total
    ensures r.Fail? ==> r.error == Unavailable
    ensures r.Pass? ==> acl.rules == AppendRules([], input, |input|)
  {
    ghost var c0 := acl.calls;
    ghost var clear := ClearCalls(|acl.rules|, acl.limit);
    CleanSplit(acl.faults, c0, clear, |input|);
    var cleared := ClearRules(acl, aclId);
    if cleared.Fail? {
      assert FirstFault(acl.faults, c0, clear) != clear;
      return cleared;
    }
    assert acl.calls == c0 + clear && acl.rules == [];
    r := CreateInlineRules(acl, aclId, input);
    assert r.Pass? <==> FirstFault(acl.faults, c0 + clear, |input|) == |input|;
  }

  // ------------------------------------------------------------- handlers

  /** The calls nwaclCreate makes once its input is valid: create the ACL,
      record its id, then replace its default rules by the configured ones. */
  method CreateAndFill(d: AclResourceData, acl: NetworkAcl, name: string, input: seq<InlineRule>)
    returns (r: Outcome<AclError>)
    requires acl.Valid()
    modifies d`id, acl
    ensures acl.Valid()
    ensures old(acl.calls) in acl.faults ==>
      && r == Fail(Remote(Unavailable))
      && d.id == old(d.id) && acl.present == old(acl.present) && acl.rules == old(acl.rules)
      && acl.name == old(acl.name) && acl.subnets == old(acl.subnets) && acl.calls == old(acl.calls) + 1
    ensures old(acl.calls) !in acl.faults ==>
      && d.id == acl.id && acl.present
      && acl.name == (if name != "" then name else acl.generatedName)
    ensures var total := 1 + ClearCalls(|acl.defaultRules|, acl.limit) + |input|;
      r.Pass? <==> FirstFault(acl.faults, old(acl.calls), total) == total
    ensures r.Pass? ==> acl.rules == AppendRules([], input, |input|)
  {
    ghost var calls0 := acl.calls;
    ghost var rest := ClearCalls(|acl.defaultRules|, acl.limit) + |input|;
    ghost var total := 1 + ClearCalls(|acl.defaultRules|, acl.limit) + |input|;
    assert FirstFault(acl.faults, calls0, total)
        == if calls0 in acl.faults then 0 else 1 + FirstFault(acl.faults, calls0 + 1, rest);

    var created := acl.Create(if name != "" then Some(name) else None);
    if created.Err? {
      return Fail(Remote(created.error));
    }
    d.id := created.value;

    var replaced := ReplaceRules(acl, d.id, input);
    if replaced.Fail? {
      return Fail(Remote(replaced.error));
    }
    r := Pass;
  }

  /** nwaclCreate: validation before any call; the id is set as soon as the
      ACL exists, then its default rules are cleared and the configured
      ones created. */
  method NwaclCreate(d: AclResourceData, acl: NetworkAcl, name: string, input: seq<InlineRule>)
    returns (r: Outcome<AclError>)
    requires acl.Valid()
    modifies d`id, acl
    ensures acl.Valid()
    ensures ValidateInlineRules(input).Fail? ==>
      && r == Fail(Invalid(ValidateInlineRules(input).error))
      && d.id == old(d.id) && acl.calls == old(acl.calls)
      && acl.present == old(acl.present) && acl.rules == old(acl.rules) && acl.name == old(acl.name)
    ensures ValidateInlineRules(input).Pass? && old(acl.calls) in acl.faults ==>
      && r == Fail(Remote(Unavailable))
      && d.id == old(d.id) && acl.present == old(acl.present) && acl.rules == old(acl.rules)
      && acl.name == old(acl.name) && acl.subnets == old(acl.subnets) && acl.calls == old(acl.calls) + 1
    ensures ValidateInlineRules(input).Pass? && old(acl.calls) !in acl.faults ==>
      && d.id == acl.id && acl.present
      && acl.name == (if name != "" then name else acl.generatedName)
    ensures ValidateInlineRules(input).Pass? ==>
      var total := 1 + ClearCalls(|acl.defaultRules|, acl.limit) + |input|;
      r.Pass? <==> FirstFault(acl.faults, old(acl.calls), total) == total
    ensures r.Pass? ==> acl.rules == AppendRules([], input, |input|)
  {
    var validated := ValidateInlineRules(input);
    if validated.Fail? {
      return Fail(Invalid(validated.error));
    }
    r := CreateAndFill(d, acl, name, input);
  }

  /** nwaclGet: a 404 clears the id and is no error; otherwise the name and
      the flattened rules are written. */
  method NwaclRead(d: AclResourceData, acl: NetworkAcl) returns (r: Outcome<AclError>)
    modifies d`id, d`name, d`rules, acl`calls
    ensures acl.calls == old(acl.calls) + 1
    ensures old(acl.calls) in acl.faults ==>
      r == Fail(Remote(Unavailable)) && d.id == old(d.id) && d.name == old(d.name) && d.rules == old(d.rules)
    ensures old(acl.calls) !in acl.faults && !acl.Reachable(old(d.id)) ==>
      r.Pass? && d.id == "" && d.name == old(d.name) && d.rules == old(d.rules)
    ensures old(acl.calls) !in acl.faults && acl.Reachable(old(d.id)) ==>
      && r.Pass? && d.id == old(d.id) && d.name == acl.name
      && |d.rules| == |acl.rules|
      && forall i :: 0 <= i < |acl.rules| ==> d.rules[i] == FlattenRule(acl.rules[i], acl.subnets)
  {
    var got := acl.Get(d.id);
    if got.Err? {
      if IsNotFound(got.error) {
        d.id := "";
        return Pass;
      }
      return Fail(Remote(got.error));
    }
    var view := got.value;
    d.name := view.name;
    var records := FlattenRules(view.rules, view.subnets);
    d.rules := records;
    r := Pass;
  }

  /** resourceIBMISNetworkACLCreate: create, then read back. */
  method ResourceCreate(d: AclResourceData, acl: NetworkAcl, name: string, input: seq<InlineRule>)
    returns (r: Outcome<AclError>)
    requires acl.Valid()
    modifies d, acl
    ensures acl.Valid()
    ensures ValidateInlineRules(input).Fail? ==> r == Fail(Invalid(ValidateInlineRules(input).error))
    ensures r.Pass? ==>
      && d.id == acl.id && acl.rules == AppendRules([], input, |input|)
      && |d.rules| == |input|
      && forall i :: 0 <= i < |input| ==> d.rules[i] == FlattenRule(acl.rules[i], acl.subnets)
    ensures r.Pass? && (forall i :: 0 <= i < |input| ==> CompleteBlocks(input[i])) ==>
      forall i :: 0 <= i < |input| ==> RecordMatches(d.rules[i], input[i])
  {
    r := NwaclCreate(d, acl, name, input);
    if r.Fail? {
      return;
    }
    r := NwaclRead(d, acl);
    if r.Pass? && (forall i :: 0 <= i < |input| ==> CompleteBlocks(input[i])) {
      CreatedTableReadsBack([], input, |input|, acl.subnets);
    }
  }

  /** nwaclUpdate: the rename goes first; the rules are validated only when
      they changed, and then replaced as on create. */
  method NwaclUpdate(d: AclResourceData, acl: NetworkAcl, name: string, nameChanged: bool,
                     rulesChanged: bool, input: seq<InlineRule>) returns (r: Outcome<AclError>)
    requires acl.Valid()
    modifies acl`name, acl`rules, acl`calls
    ensures acl.Valid()
    ensures !rulesChanged ==> acl.rules == old(acl.rules)
    ensures !nameChanged ==> acl.name == old(acl.name)
    ensures nameChanged && (old(acl.calls) in acl.faults || !acl.Reachable(d.id)) ==>
      && r == Fail(Remote(if old(acl.calls) in acl.faults then Unavailable else HttpError(NotFoundStatus)))
      && acl.name == old(acl.name) && acl.rules == old(acl.rules)
    ensures rulesChanged && ValidateInlineRules(input).Fail? && r.Fail? ==> acl.rules == old(acl.rules)
    ensures rulesChanged && ValidateInlineRules(input).Fail? && !nameChanged ==>
      r == Fail(Invalid(ValidateInlineRules(input).error)) && acl.calls == old(acl.calls)
    ensures r.Pass? && nameChanged ==> acl.name == name
    ensures r.Pass? && rulesChanged ==> ValidateInlineRules(input).Pass? && acl.rules == AppendRules([], input, |input|)
  {
    if nameChanged {
      var renamed := acl.Rename(d.id, name);
      if renamed.Some? {
        return Fail(Remote(renamed.value));
      }
    }
    if rulesChanged {
      var validated := ValidateInlineRules(input);
      if validated.Fail? {
        return Fail(Invalid(validated.error));
      }
      var cleared := ClearRules(acl, d.id);
      if cleared.Fail? {
        return Fail(Remote(cleared.error));
      }
      var made := CreateInlineRules(acl, d.id, input);
      if made.Fail? {
        return Fail(Remote(made.error));
      }
    }
    r := Pass;
  }

  /** nwaclDelete: a 404 on the pre-check clears the id and is no error;
      otherwise the ACL is deleted and the id cleared. */
  method NwaclDelete(d: AclResourceData, acl: NetworkAcl) returns (r: Outcome<AclError>)
    modifies d`id, acl`present, acl`rules, acl`calls
    ensures r.Pass? ==> d.id == ""
    ensures r.Fail? ==> d.id == old(d.id) && acl.present == old(acl.present) && acl.rules == old(acl.rules)
    ensures old(acl.calls) in acl.faults ==> r == Fail(Remote(Unavailable)) && acl.calls == old(acl.calls) + 1
    ensures old(acl.calls) !in acl.faults && !old(acl.Reachable(d.id)) ==>
      r.Pass? && acl.calls == old(acl.calls) + 1 && acl.present == old(acl.present)
    ensures old(acl.calls) !in acl.faults && old(acl.Reachable(d.id)) ==>
      && acl.calls == old(acl.calls) + 2
      && (r.Pass? <==> old(acl.calls) + 1 !in acl.faults)
      && (r.Pass? ==> !acl.present && acl.rules == [])
      && (r.Fail? ==> r == Fail(Remote(Unavailable)))
  {
    var got := acl.Get(d.id);
    if got.Err? {
      if IsNotFound(got.error) {
        d.id := "";
        return Pass;
      }
      return Fail(Remote(got.error));
    }
    var failed := acl.Delete(d.id);
    if failed.Some? {
      return Fail(Remote(failed.value));
    }
    d.id := "";
    r := Pass;
  }

  /** nwaclExists: false without error on a 404, an error on any other failure. */
  method NwaclExists(d: AclResourceData, acl: NetworkAcl) returns (exists_: bool, r: Outcome<AclError>)
    modifies acl`calls
    ensures acl.calls == old(acl.calls) + 1
    ensures exists_ <==> old(acl.calls) !in acl.faults && acl.Reachable(d.id)
    ensures r.Fail? <==> old(acl.calls) in acl.faults
    ensures r.Fail? ==> r.error == Remote(Unavailable) && !exists_
  {
    var got := acl.Get(d.id);
    if got.Err? {
      if IsNotFound(got.error) {
        return false, Pass;
      }
      return false, Fail(Remote(got.error));
    }
    return true, Pass;
  }
}
