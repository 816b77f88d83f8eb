/** The network ACL as the VPC API keeps it: an ordered rule table listed in
    cursor pages, rules created at the end of the table and deleted by id.
    Every call may instead fail transiently, as the fault schedule says. */
module NetworkAclService {
  import opened Wrappers
  import opened RemoteApi
  import opened Pagination
  import opened NetworkAclRules

  const IpV4: string := "ipv4"

  /** The rule the API stores for a prototype, under the id it assigns. */
  function RuleItemOf(p: RulePrototype, id: string): RuleItem
  {
    var core := RuleCore(id, p.name, p.action, IpV4, p.source, p.destination, p.direction);
    if p.protocol == ProtocolIcmp then IcmpRule(core, p.icmpCode, p.icmpType)
    else if p.protocol == ProtocolTcp || p.protocol == ProtocolUdp then
      TcpUdpRule(core, p.protocol, p.destinationPortMin, p.destinationPortMax, p.sourcePortMin, p.sourcePortMax)
    else AllRule(core)
  }

  /** The stored rule keeps the prototype's fields under the assigned id,
      as an IPv4 rule of the variant its protocol names. */
  lemma RuleItemOfFields(p: RulePrototype, id: string)
    ensures var item := RuleItemOf(p, id);
      && RuleId(item) == id && item.core.ipVersion == IpV4
      && item.core.name == p.name && item.core.action == p.action && item.core.direction == p.direction
      && item.core.source == p.source && item.core.destination == p.destination
      && (item.IcmpRule? <==> p.protocol == ProtocolIcmp)
      && (item.TcpUdpRule? <==> p.protocol == ProtocolTcp || p.protocol == ProtocolUdp)
      && (item.TcpUdpRule? ==> item.protocol == p.protocol)
  {
  }

  /** Length of the longest rule id in the table. */
  function LongestId(rules: seq<RuleItem>): nat
    decreases |rules|
  {
    if |rules| == 0 then 0
    else
      var rest := LongestId(rules[1..]);
      if |RuleId(rules[0])| > rest then |RuleId(rules[0])| else rest
  }

  /** No id in the table is longer than LongestId. */
  lemma {:induction false} LongestIdBounds(rules: seq<RuleItem>, i: nat)
    requires i < |rules|
    ensures |RuleId(rules[i])| <= LongestId(rules)
    decreases |rules|
  {
    if i > 0 {
      LongestIdBounds(rules[1..], i - 1);
    }
  }

  /** A string of `n` copies of `c`. */
  function Repeat(c: char, n: nat): (s: string)
    ensures |s| == n
  {
    if n == 0 then [] else [c] + Repeat(c, n - 1)
  }

  /** The id the API assigns to a new rule: longer than every id in use. */
  function FreshId(rules: seq<RuleItem>): string
  {
    Repeat('r', LongestId(rules) + 1)
  }

  /** The assigned id is non-empty and names no rule of the table. */
  lemma FreshIdUnused(rules: seq<RuleItem>)
    ensures FreshId(rules) != ""
    ensures forall i :: 0 <= i < |rules| ==> RuleId(rules[i]) != FreshId(rules)
  {
    forall i | 0 <= i < |rules|
      ensures RuleId(rules[i]) != FreshId(rules)
    {
      LongestIdBounds(rules, i);
    }
  }

  /** A snapshot of the ACL as a get returns it. */
  datatype AclView = AclView(id: string, name: string, rules: seq<RuleItem>, subnets: nat)

  class NetworkAcl {
    const id: string
    var present: bool
    var name: string
    var rules: seq<RuleItem>
    var subnets: nat
    /** Page size of a rule listing. */
    const limit: nat
    /** The rules a newly created ACL starts with. */
    const defaultRules: seq<RuleItem>
    /** The name the API picks when a create names none. */
    const generatedName: string
    /** Number of calls answered so far, and those answered with a transient error. */
    var calls: nat
    const faults: set<nat>

    ghost predicate Valid()
      reads this`rules
    {
      limit > 0 && id != "" && UniqueKeys(rules, RuleId) && UniqueKeys(defaultRules, RuleId)
    }

    predicate Reachable(aclId: string)
      reads this`present
    {
      present && aclId == id
    }

    constructor (id: string, limit: nat, defaultRules: seq<RuleItem>, generatedName: string, faults: set<nat>)
      requires id != "" && limit > 0 && UniqueKeys(defaultRules, RuleId)
      ensures Valid() && !present && rules == [] && calls == 0
      ensures this.id == id && this.limit == limit && this.defaultRules == defaultRules
      ensures this.generatedName == generatedName && this.faults == faults
    {
      this.id := id;
      this.limit := limit;
      this.defaultRules := defaultRules;
      this.generatedName := generatedName;
      this.faults := faults;
      present := false;
      name := "";
      rules := [];
      subnets := 0;
      calls := 0;
    }

    /** Counts one call; true when the schedule makes it fail. */
    method Answer() returns (fault: bool)
      modifies this`calls
      ensures calls == old(calls) + 1
      ensures fault <==> old(calls) in faults
    {
      fault := calls in faults;
      calls := calls + 1;
    }

    /** CreateNetworkACL: a new ACL holding the default rules and no subnets. */
    method Create(requestedName: Option<string>) returns (r: Result<string, ApiError>)
      requires Valid()
      modifies this
      ensures Valid() && calls == old(calls) + 1
      ensures old(calls) in faults ==>
        r == Err(Unavailable) && present == old(present) && name == old(name)
        && rules == old(rules) && subnets == old(subnets)
      ensures old(calls) !in faults ==>
        r == Ok(id) && present && rules == defaultRules && subnets == 0
        && name == (if requestedName.Some? then requestedName.value else generatedName)
    {
      var fault := Answer();
      if fault {
        return Err(Unavailable);
      }
      present := true;
      name := if requestedName.Some? then requestedName.value else generatedName;
      rules := defaultRules;
      subnets := 0;
      r := Ok(id);
    }

    /** GetNetworkACL */
    method Get(aclId: string) returns (r: Result<AclView, ApiError>)
      modifies this`calls
      ensures calls == old(calls) + 1
      ensures r.Ok? <==> old(calls) !in faults && Reachable(aclId)
      ensures r.Ok? ==> r.value == AclView(id, name, rules, subnets)
      ensures r.Err? ==> r.error == if old(calls) in faults then Unavailable else HttpError(NotFoundStatus)
    {
      var fault := Answer();
      if fault {
        return Err(Unavailable);
      }
      if !Reachable(aclId) {
        return Err(HttpError(NotFoundStatus));
      }
      r := Ok(AclView(id, name, rules, subnets));
    }

    /** ListNetworkACLRules: one page from the cursor; a cursor naming no
        rule is a bad request. */
    method ListRules(aclId: string, start: string) returns (r: Result<Page<RuleItem>, ApiError>)
      requires Valid()
      modifies this`calls
      ensures calls == old(calls) + 1
      ensures old(calls) in faults ==> r == Err(Unavailable)
      ensures old(calls) !in faults && !Reachable(aclId) ==> r == Err(HttpError(NotFoundStatus))
      ensures old(calls) !in faults && Reachable(aclId) ==>
        r == match ListPage(rules, RuleId, limit, start)
             case Ok(p) => Ok(p)
             case Err(_) => Err(HttpError(BadRequestStatus))
    {
      var fault := Answer();
      if fault {
        return Err(Unavailable);
      }
      if !Reachable(aclId) {
        return Err(HttpError(NotFoundStatus));
      }
      match ListPage(rules, RuleId, limit, start)
      case Ok(p) => r := Ok(p);
      case Err(_) => r := Err(HttpError(BadRequestStatus));
    }

    /** DeleteNetworkACLRule */
    method DeleteRule(aclId: string, ruleId: string) returns (r: Option<ApiError>)
      requires Valid()
      modifies this`rules, this`calls
      ensures Valid() && calls == old(calls) + 1
      ensures old(calls) in faults ==> r == Some(Unavailable) && rules == old(rules)
      ensures old(calls) !in faults ==>
        match IndexOfKey(old(rules), RuleId, ruleId)
        case Some(k) =>
          if Reachable(aclId) then r.None? && rules == old(rules)[..k] + old(rules)[k + 1..]
          else r == Some(HttpError(NotFoundStatus)) && rules == old(rules)
        case None => r == Some(HttpError(NotFoundStatus)) && rules == old(rules)
    {
      var fault := Answer();
      if fault {
        return Some(Unavailable);
      }
      var k := IndexOfKey(rules, RuleId, ruleId);
      if !Reachable(aclId) || k.None? {
        return Some(HttpError(NotFoundStatus));
      }
      ghost var before := rules;
      rules := rules[..k.value] + rules[k.value + 1..];
      forall i | 0 <= i < |rules|
        ensures rules[i] == before[if i < k.value then i else i + 1]
      {
      }
      r := None;
    }

    /** CreateNetworkACLRule: the new rule goes to the end of the table. */
    method CreateRule(aclId: string, p: RulePrototype) returns (r: Result<RuleItem, ApiError>)
      requires Valid()
      modifies this`rules, this`calls
      ensures Valid() && calls == old(calls) + 1
      ensures old(calls) in faults ==> r == Err(Unavailable) && rules == old(rules)
      ensures old(calls) !in faults && !Reachable(aclId) ==> r == Err(HttpError(NotFoundStatus)) && rules == old(rules)
      ensures old(calls) !in faults && Reachable(aclId) ==>
        var item := RuleItemOf(p, FreshId(old(rules)));
        r == Ok(item) && rules == old(rules) + [item]
    {
      var fault := Answer();
      if fault {
        return Err(Unavailable);
      }
      if !Reachable(aclId) {
        return Err(HttpError(NotFoundStatus));
      }
      FreshIdUnused(rules);
      var item := RuleItemOf(p, FreshId(rules));
      rules := rules + [item];
      r := Ok(item);
    }

    /** UpdateNetworkACL with a name patch. */
    method Rename(aclId: string, newName: string) returns (r: Option<ApiError>)
      modifies this`name, this`calls
      ensures calls == old(calls) + 1
      ensures r.None? <==> old(calls) !in faults && Reachable(aclId)
      ensures name == if r.None? then newName else old(name)
      ensures r.Some? ==> r.value == if old(calls) in faults then Unavailable else HttpError(NotFoundStatus)
    {
      var fault := Answer();
      if fault {
        return Some(Unavailable);
      }
      if !Reachable(aclId) {
        return Some(HttpError(NotFoundStatus));
      }
      name := newName;
      r := None;
    }

    /** DeleteNetworkACL */
    method Delete(aclId: string) returns (r: Option<ApiError>)
      modifies this`present, this`rules, this`calls
      ensures calls == old(calls) + 1
      ensures r.None? <==> old(calls) !in faults && old(Reachable(aclId))
      ensures r.None? ==> !present && rules == []
      ensures r.Some? ==>
        present == old(present) && rules == old(rules)
        && r.value == if old(calls) in faults then Unavailable else HttpError(NotFoundStatus)
    {
      var fault := Answer();
      if fault {
        return Some(Unavailable);
      }
      if !Reachable(aclId) {
        return Some(HttpError(NotFoundStatus));
      }
      present := false;
      rules := [];
      r := None;
    }
  }
}
