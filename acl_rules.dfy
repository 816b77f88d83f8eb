/** The rule logic of resource `ibm_is_network_acl`: the inline rules a
    configuration gives, their validation, the rule prototype built from
    each, the three-variant rule union the API returns and the flat rule
    records a read writes back, plus the ranges and enums the resource's
    validator declares. */
module NetworkAclRules {
  import opened Wrappers

  // Attribute keys of the protocol blocks.
  const KeyCode: string := "code"
  const KeyType: string := "type"
  const KeyPortMax: string := "port_max"
  const KeyPortMin: string := "port_min"
  const KeySourcePortMax: string := "source_port_max"
  const KeySourcePortMin: string := "source_port_min"

  const ActionAllow: string := "allow"
  const ActionDeny: string := "deny"

  const ProtocolIcmp: string := "icmp"
  const ProtocolTcp: string := "tcp"
  const ProtocolUdp: string := "udp"
  const ProtocolAll: string := "all"

  /** One element of the `rules` attribute. A protocol block list holds at
      most one block (MaxItems 1 in the schema) but the code only looks at its
      length and first element. An icmp block whose fields are all unset is
      nil (its fields have no defaults); tcp and udp blocks always carry their
      port defaults, so they are never nil. */
  datatype InlineRule = InlineRule(
    name: string,
    source: string,
    destination: string,
    action: string,
    direction: string,
    icmp: seq<Option<map<string, int>>>,
    tcp: seq<map<string, int>>,
    udp: seq<map<string, int>>)

  // ------------------------------------------------------------ validation

  datatype ValidationError = InvalidAction | ConflictingProtocols

  predicate ActionAllowed(action: string)
  {
    action == ActionAllow || action == ActionDeny
  }

  /** Number of non-empty protocol block lists among icmp, tcp and udp. */
  function BlockCount(rule: InlineRule): nat
  {
    (if |rule.icmp| > 0 then 1 else 0) + (if |rule.tcp| > 0 then 1 else 0) + (if |rule.udp| > 0 then 1 else 0)
  }

  /** The checks made on one rule, in the code's order: the action first,
      then "at most one of icmp|tcp|udp". The direction is lower-cased and
      then not used. */
  function RuleCheck(rule: InlineRule): (r: Outcome<ValidationError>)
    ensures r.Pass? <==> ActionAllowed(rule.action) && BlockCount(rule) <= 1
    ensures !ActionAllowed(rule.action) ==> r == Fail(InvalidAction)
    ensures ActionAllowed(rule.action) && BlockCount(rule) > 1 ==> r == Fail(ConflictingProtocols)
  {
    if !ActionAllowed(rule.action) then Fail(InvalidAction)
    else if BlockCount(rule) > 1 then Fail(ConflictingProtocols)
    else Pass
  }

  /** validateInlineRules: the first failing rule decides the error. */
  function ValidateInlineRules(rules: seq<InlineRule>): (r: Outcome<ValidationError>)
    ensures r.Pass? <==> forall i :: 0 <= i < |rules| ==> RuleCheck(rules[i]).Pass?
    ensures r.Fail? ==>
      exists i :: 0 <= i < |rules| && RuleCheck(rules[i]) == r
                  && forall j :: 0 <= j < i ==> RuleCheck(rules[j]).Pass?
    decreases |rules|
  {
    if |rules| == 0 then Pass
    else if RuleCheck(rules[0]).Fail? then RuleCheck(rules[0])
    else
      var r := ValidateInlineRules(rules[1..]);
      assert forall i :: 1 <= i < |rules| ==> rules[i] == rules[1..][i - 1];
      r
  }

  /** Validation fails on a rule whose action is neither allow nor deny, or
      that gives two or more protocol blocks, whatever the other rules are. */
  lemma {:induction false} ValidationRejects(rules: seq<InlineRule>, i: nat)
    requires i < |rules|
    requires !ActionAllowed(rules[i].action) || BlockCount(rules[i]) >= 2
    ensures ValidateInlineRules(rules).Fail?
  {
    assert RuleCheck(rules[i]).Fail?;
  }

  /** The direction plays no part in validation: rules that differ only in
      their directions validate alike. */
  lemma {:induction false} ValidationIgnoresDirection(rules: seq<InlineRule>, others: seq<InlineRule>)
    requires |others| == |rules|
    requires forall i :: 0 <= i < |rules| ==> others[i] == rules[i].(direction := others[i].direction)
    ensures ValidateInlineRules(others) == ValidateInlineRules(rules)
    decreases |rules|
  {
    if |rules| > 0 {
      assert RuleCheck(others[0]) == RuleCheck(rules[0]);
      ValidationIgnoresDirection(rules[1..], others[1..]);
    }
  }

  // ------------------------------------------------------------ prototypes

  /** NetworkACLRulePrototype: optional fields are Option. */
  datatype RulePrototype = RulePrototype(
    action: string,
    destination: string,
    direction: string,
    source: string,
    name: string,
    before: Option<string>,
    protocol: string,
    icmpType: Option<int>,
    icmpCode: Option<int>,
    destinationPortMin: Option<int>,
    destinationPortMax: Option<int>,
    sourcePortMin: Option<int>,
    sourcePortMax: Option<int>)

  /** The value stored under `k`, when the key is present. */
  function Lookup(m: map<string, int>, k: string): Option<int>
  {
    if k in m then Some(m[k]) else None
  }

  /** The protocol a rule is created with: icmp, then tcp, then udp, else all. */
  function SelectProtocol(rule: InlineRule): string
  {
    if |rule.icmp| > 0 then ProtocolIcmp
    else if |rule.tcp| > 0 then ProtocolTcp
    else if |rule.udp| > 0 then ProtocolUdp
    else ProtocolAll
  }

  /** For a rule that passed validation the choice is not a priority at all:
      the protocol names the one block given, or is "all" when none is. */
  lemma ValidatedProtocol(rule: InlineRule)
    requires RuleCheck(rule).Pass?
    ensures SelectProtocol(rule) == ProtocolIcmp <==> |rule.icmp| > 0
    ensures SelectProtocol(rule) == ProtocolTcp <==> |rule.tcp| > 0
    ensures SelectProtocol(rule) == ProtocolUdp <==> |rule.udp| > 0
    ensures SelectProtocol(rule) == ProtocolAll <==> BlockCount(rule) == 0
  {
  }

  /** The ports of a tcp or udp block, one field per key the block holds. */
  predicate PortsCopied(p: RulePrototype, block: map<string, int>)
  {
    && p.destinationPortMin == Lookup(block, KeyPortMin)
    && p.destinationPortMax == Lookup(block, KeyPortMax)
    && p.sourcePortMin == Lookup(block, KeySourcePortMin)
    && p.sourcePortMax == Lookup(block, KeySourcePortMax)
  }

  predicate NoPorts(p: RulePrototype)
  {
    p.destinationPortMin.None? && p.destinationPortMax.None? && p.sourcePortMin.None? && p.sourcePortMax.None?
  }

  /** The prototype createInlineRules sends for one rule. */
  function Prototype(rule: InlineRule): RulePrototype
  {
    var base := RulePrototype(rule.action, rule.destination, rule.direction, rule.source, rule.name,
                              None, ProtocolAll, None, None, None, None, None, None);
    if |rule.icmp| > 0 then
      match rule.icmp[0]
      case None => base.(protocol := ProtocolIcmp)
      case Some(block) =>
        base.(protocol := ProtocolIcmp, icmpType := Lookup(block, KeyType), icmpCode := Lookup(block, KeyCode))
    else if |rule.tcp| > 0 then
      WithPorts(base.(protocol := ProtocolTcp), rule.tcp[0])
    else if |rule.udp| > 0 then
      WithPorts(base.(protocol := ProtocolUdp), rule.udp[0])
    else base
  }

  /** The prototype copies the rule's five plain fields, never sets
      `before`, and carries exactly the fields of the one block its protocol
      names: icmp type and code as given, or the ports of the tcp or udp block. */
  lemma PrototypeFields(rule: InlineRule)
    ensures var p := Prototype(rule);
      && p.protocol == SelectProtocol(rule)
      && p.before.None?
      && p.name == rule.name && p.action == rule.action && p.direction == rule.direction
      && p.source == rule.source && p.destination == rule.destination
      && (p.protocol == ProtocolIcmp ==>
            && NoPorts(p)
            && (rule.icmp[0].None? ==> p.icmpType.None? && p.icmpCode.None?)
            && (rule.icmp[0].Some? ==>
                  p.icmpType == Lookup(rule.icmp[0].value, KeyType) && p.icmpCode == Lookup(rule.icmp[0].value, KeyCode)))
      && (p.protocol == ProtocolTcp ==> p.icmpType.None? && p.icmpCode.None? && PortsCopied(p, rule.tcp[0]))
      && (p.protocol == ProtocolUdp ==> p.icmpType.None? && p.icmpCode.None? && PortsCopied(p, rule.udp[0]))
      && (p.protocol == ProtocolAll ==> p.icmpType.None? && p.icmpCode.None? && NoPorts(p))
  {
  }

  function WithPorts(p: RulePrototype, block: map<string, int>): (q: RulePrototype)
    ensures PortsCopied(q, block)
    ensures q.protocol == p.protocol && q.icmpType == p.icmpType && q.icmpCode == p.icmpCode && q.before == p.before
    ensures q.name == p.name && q.action == p.action && q.direction == p.direction
    ensures q.source == p.source && q.destination == p.destination
  {
    p.(destinationPortMin := Lookup(block, KeyPortMin),
       destinationPortMax := Lookup(block, KeyPortMax),
       sourcePortMin := Lookup(block, KeySourcePortMin),
       sourcePortMax := Lookup(block, KeySourcePortMax))
  }

  /** createInlineRules' per-rule body: a template with the five copied
      fields, then the protocol and the fields of the chosen block set one by
      one. `before` is never set: the code's `before` stays "". */
  method BuildRuleTemplate(rule: InlineRule) returns (t: RulePrototype)
    ensures t == Prototype(rule)
  {
    var before := "";
    var protocol := ProtocolAll;
    t := RulePrototype(rule.action, rule.destination, rule.direction, rule.source, rule.name,
                       None, protocol, None, None, None, None, None, None);
    if before != "" {
      t := t.(before := Some(before));
    }
    if |rule.icmp| > 0 {
      protocol := ProtocolIcmp;
      t := t.(protocol := protocol);
      if rule.icmp[0].Some? {
        var block := rule.icmp[0].value;
        if KeyType in block {
          t := t.(icmpType := Some(block[KeyType]));
        }
        if KeyCode in block {
          t := t.(icmpCode := Some(block[KeyCode]));
        }
      }
    } else if |rule.tcp| > 0 {
      protocol := ProtocolTcp;
      t := t.(protocol := protocol);
      t := SetPorts(t, rule.tcp[0]);
    } else if |rule.udp| > 0 {
      protocol := ProtocolUdp;
      t := t.(protocol := protocol);
      t := SetPorts(t, rule.udp[0]);
    }
    if protocol == ProtocolAll {
      t := t.(protocol := protocol);
    }
  }

  /** The four `if val, ok := block[key]; ok` assignments of a tcp or udp block. */
  method SetPorts(t0: RulePrototype, block: map<string, int>) returns (t: RulePrototype)
    requires NoPorts(t0)
    ensures t == WithPorts(t0, block)
  {
    t := t0;
    if KeyPortMin in block {
      t := t.(destinationPortMin := Some(block[KeyPortMin]));
    }
    if KeyPortMax in block {
      t := t.(destinationPortMax := Some(block[KeyPortMax]));
    }
    if KeySourcePortMin in block {
      t := t.(sourcePortMin := Some(block[KeySourcePortMin]));
    }
    if KeySourcePortMax in block {
      t := t.(sourcePortMax := Some(block[KeySourcePortMax]));
    }
  }

  // ------------------------------------------------------ the rule union

  /** The fields every rule variant carries. */
  datatype RuleCore = RuleCore(
    id: string,
    name: string,
    action: string,
    ipVersion: string,
    source: string,
    destination: string,
    direction: string)

  /** NetworkACLRuleItemIntf: the three concrete types the code switches on. */
  datatype RuleItem =
    | IcmpRule(core: RuleCore, code: Option<int>, icmpType: Option<int>)
    | TcpUdpRule(core: RuleCore, protocol: string,
                 destinationPortMin: Option<int>, destinationPortMax: Option<int>,
                 sourcePortMin: Option<int>, sourcePortMax: Option<int>)
    | AllRule(core: RuleCore)

  function RuleId(rule: RuleItem): string
  {
    rule.core.id
  }

  // ------------------------------------------------------- flat records

  /** One element of `rules` as a read writes it. A protocol key the read
      does not set is None. */
  datatype RuleRecord = RuleRecord(
    id: string,
    name: string,
    action: string,
    ipVersion: string,
    source: string,
    destination: string,
    direction: string,
    subnets: nat,
    icmp: Option<seq<map<string, int>>>,
    tcp: Option<seq<map<string, int>>>,
    udp: Option<seq<map<string, int>>>)

  /** checkNetworkACLNil */
  function CheckNil(v: Option<int>): int
  {
    if v.None? then 0 else v.value
  }

  function IcmpBlock(code: Option<int>, icmpType: Option<int>): map<string, int>
  {
    if code.Some? && icmpType.Some? then map[KeyCode := code.value, KeyType := icmpType.value]
    else map[]
  }

  function PortBlock(dstMin: Option<int>, dstMax: Option<int>, srcMin: Option<int>, srcMax: Option<int>): map<string, int>
  {
    map[KeySourcePortMax := CheckNil(srcMax), KeySourcePortMin := CheckNil(srcMin),
        KeyPortMax := CheckNil(dstMax), KeyPortMin := CheckNil(dstMin)]
  }

  /** The record one rule of the union flattens to in nwaclGet. */
  function FlattenRule(item: RuleItem, subnets: nat): (rec: RuleRecord)
    ensures rec.id == RuleId(item) && rec.subnets == subnets
    ensures rec.name == item.core.name && rec.action == item.core.action && rec.direction == item.core.direction
    ensures rec.source == item.core.source && rec.destination == item.core.destination
    ensures rec.ipVersion == item.core.ipVersion
  {
    var c := item.core;
    var none: seq<map<string, int>> := [];
    match item
    case IcmpRule(_, code, icmpType) =>
      RuleRecord(c.id, c.name, c.action, c.ipVersion, c.source, c.destination, c.direction, subnets,
                 Some([IcmpBlock(code, icmpType)]), Some(none), Some(none))
    case TcpUdpRule(_, protocol, dMin, dMax, sMin, sMax) =>
      if protocol == ProtocolTcp then
        RuleRecord(c.id, c.name, c.action, c.ipVersion, c.source, c.destination, c.direction, subnets,
                   Some(none), Some([PortBlock(dMin, dMax, sMin, sMax)]), Some(none))
      else if protocol == ProtocolUdp then
        RuleRecord(c.id, c.name, c.action, c.ipVersion, c.source, c.destination, c.direction, subnets,
                   Some(none), Some(none), Some([PortBlock(dMin, dMax, sMin, sMax)]))
      else
        RuleRecord(c.id, c.name, c.action, c.ipVersion, c.source, c.destination, c.direction, subnets,
                   None, None, None)
    case AllRule(_) =>
      RuleRecord(c.id, c.name, c.action, c.ipVersion, c.source, c.destination, c.direction, subnets,
                 Some(none), Some(none), Some(none))
  }

  function BlockLength(b: Option<seq<map<string, int>>>): nat
  {
    if b.None? then 0 else |b.value|
  }

  /** The shape of each variant's record: exactly the matching block holds
      one element, "all" has none; an icmp element is empty unless both code
      and type are present; absent ports read as 0. */
  lemma FlattenShape(item: RuleItem, subnets: nat)
    ensures var rec := FlattenRule(item, subnets);
      && (item.IcmpRule? ==>
            && BlockLength(rec.icmp) == 1 && rec.tcp == Some([]) && rec.udp == Some([])
            && (rec.icmp.value[0] == map[] <==> item.code.None? || item.icmpType.None?)
            && (item.code.Some? && item.icmpType.Some? ==>
                  rec.icmp.value[0][KeyCode] == item.code.value && rec.icmp.value[0][KeyType] == item.icmpType.value))
      && (item.TcpUdpRule? && item.protocol == ProtocolTcp ==>
            rec.icmp == Some([]) && rec.tcp == Some([PortsRead(item)]) && rec.udp == Some([]))
      && (item.TcpUdpRule? && item.protocol == ProtocolUdp ==>
            rec.icmp == Some([]) && rec.tcp == Some([]) && rec.udp == Some([PortsRead(item)]))
      && (item.TcpUdpRule? && item.protocol != ProtocolTcp && item.protocol != ProtocolUdp ==>
            rec.icmp.None? && rec.tcp.None? && rec.udp.None?)
      && (item.AllRule? ==> rec.icmp == Some([]) && rec.tcp == Some([]) && rec.udp == Some([]))
  {
    assert map[KeyCode := 1, KeyType := 1] != map[] by {
      assert KeyCode in map[KeyCode := 1, KeyType := 1];
    }
    if item.IcmpRule? && item.code.Some? && item.icmpType.Some? {
      var m := IcmpBlock(item.code, item.icmpType);
      assert KeyCode in m;
    }
    if item.TcpUdpRule? {
      var b := PortBlock(item.destinationPortMin, item.destinationPortMax, item.sourcePortMin, item.sourcePortMax);
      assert b.Keys == PortsRead(item).Keys;
      assert forall k :: k in b ==> b[k] == PortsRead(item)[k];
      assert b == PortsRead(item);
    }
  }

  /** The port block a tcp or udp rule reads back as: all four keys, each
      port the rule carries, 0 for a port it does not. */
  function PortsRead(item: RuleItem): (block: map<string, int>)
    requires item.TcpUdpRule?
    ensures block.Keys == {KeyPortMin, KeyPortMax, KeySourcePortMin, KeySourcePortMax}
    ensures block[KeyPortMin] == (if item.destinationPortMin.Some? then item.destinationPortMin.value else 0)
    ensures block[KeyPortMax] == (if item.destinationPortMax.Some? then item.destinationPortMax.value else 0)
    ensures block[KeySourcePortMin] == (if item.sourcePortMin.Some? then item.sourcePortMin.value else 0)
    ensures block[KeySourcePortMax] == (if item.sourcePortMax.Some? then item.sourcePortMax.value else 0)
  {
    map[KeyPortMin := CheckNil(item.destinationPortMin), KeyPortMax := CheckNil(item.destinationPortMax),
        KeySourcePortMin := CheckNil(item.sourcePortMin), KeySourcePortMax := CheckNil(item.sourcePortMax)]
  }

  /** A record read back as the inline rule it describes. */
  function RecordAsInlineRule(rec: RuleRecord): InlineRule
  {
    InlineRule(rec.name, rec.source, rec.destination, rec.action, rec.direction,
               if rec.icmp.None? then [] else seq(|rec.icmp.value|, i requires 0 <= i < |rec.icmp.value| => Some(rec.icmp.value[i])),
               if rec.tcp.None? then [] else rec.tcp.value,
               if rec.udp.None? then [] else rec.udp.value)
  }

  /** What a read writes back never gives two protocol blocks: taken as a
      configuration, it passes validation whenever the rule's action does. */
  lemma FlattenedRuleValidates(item: RuleItem, subnets: nat)
    requires ActionAllowed(item.core.action)
    ensures RuleCheck(RecordAsInlineRule(FlattenRule(item, subnets))).Pass?
  {
  }

  // ---------------------------------------------- the declared validator

  datatype Constraint =
    | IntBetween(min: int, max: int)
    | AllowedValues(values: seq<string>)
    | LengthBetween(minLength: nat, maxLength: nat)   // the regular expression is not modelled

  datatype Value = IntValue(i: int) | StrValue(s: string)

  /** ResourceIBMISNetworkACLValidator, by attribute identifier. */
  function DeclaredConstraint(identifier: string): Option<Constraint>
  {
    if identifier == "action" then Some(AllowedValues([ActionAllow, ActionDeny]))
    else if identifier == "direction" then Some(AllowedValues(["inbound", "outbound"]))
    else if identifier == "name" then Some(LengthBetween(1, 63))
    else if identifier == KeyType then Some(IntBetween(0, 254))
    else if identifier == KeyCode then Some(IntBetween(0, 255))
    else if identifier in {KeyPortMin, KeyPortMax, KeySourcePortMin, KeySourcePortMax} then Some(IntBetween(1, 65535))
    else if identifier == "tags" || identifier == "accesstag" then Some(LengthBetween(1, 128))
    else None
  }

  predicate Satisfies(c: Constraint, v: Value)
  {
    match c
    case IntBetween(lo, hi) => v.IntValue? && lo <= v.i <= hi
    case AllowedValues(vs) => v.StrValue? && v.s in vs
    case LengthBetween(lo, hi) => v.StrValue? && lo <= |v.s| <= hi
  }

  /** A value meets the declared constraint of its attribute, if any. */
  predicate Declared(identifier: string, v: Value)
  {
    DeclaredConstraint(identifier).None? || Satisfies(DeclaredConstraint(identifier).value, v)
  }

  predicate BlockDeclared(block: map<string, int>)
  {
    forall k :: k in block ==> Declared(k, IntValue(block[k]))
  }

  /** An inline rule every attribute of which meets the declared validator. */
  predicate ConformsToDeclared(rule: InlineRule)
  {
    && Declared("name", StrValue(rule.name))
    && Declared("action", StrValue(rule.action))
    && Declared("direction", StrValue(rule.direction))
    && (forall i :: 0 <= i < |rule.icmp| && rule.icmp[i].Some? ==> BlockDeclared(rule.icmp[i].value))
    && (forall i :: 0 <= i < |rule.tcp| ==> BlockDeclared(rule.tcp[i]))
    && (forall i :: 0 <= i < |rule.udp| ==> BlockDeclared(rule.udp[i]))
  }

  /** The declared action enum and validateInlineRules accept the same actions. */
  lemma ActionEnumAgrees(action: string)
    ensures Declared("action", StrValue(action)) <==> ActionAllowed(action)
  {
  }

  /** A rule within the declared ranges yields a prototype within them: ICMP
      type 0-254, code 0-255, every port 1-65535. */
  lemma PrototypeWithinDeclaredRanges(rule: InlineRule)
    requires ConformsToDeclared(rule)
    ensures var p := Prototype(rule);
      && (p.icmpType.Some? ==> 0 <= p.icmpType.value <= 254)
      && (p.icmpCode.Some? ==> 0 <= p.icmpCode.value <= 255)
      && (p.destinationPortMin.Some? ==> 1 <= p.destinationPortMin.value <= 65535)
      && (p.destinationPortMax.Some? ==> 1 <= p.destinationPortMax.value <= 65535)
      && (p.sourcePortMin.Some? ==> 1 <= p.sourcePortMin.value <= 65535)
      && (p.sourcePortMax.Some? ==> 1 <= p.sourcePortMax.value <= 65535)
  {
    PrototypeFields(rule);
    var p := Prototype(rule);
    if p.protocol == ProtocolIcmp && rule.icmp[0].Some? {
      var b := rule.icmp[0].value;
      assert BlockDeclared(b);
      if KeyType in b { assert Declared(KeyType, IntValue(b[KeyType])); }
      if KeyCode in b { assert Declared(KeyCode, IntValue(b[KeyCode])); }
    } else if p.protocol == ProtocolTcp || p.protocol == ProtocolUdp {
      var b := if p.protocol == ProtocolTcp then rule.tcp[0] else rule.udp[0];
      assert BlockDeclared(b);
      PortsDeclared(p, b);
    }
  }

  lemma PortsDeclared(p: RulePrototype, b: map<string, int>)
    requires PortsCopied(p, b) && BlockDeclared(b)
    ensures p.destinationPortMin.Some? ==> 1 <= p.destinationPortMin.value <= 65535
    ensures p.destinationPortMax.Some? ==> 1 <= p.destinationPortMax.value <= 65535
    ensures p.sourcePortMin.Some? ==> 1 <= p.sourcePortMin.value <= 65535
    ensures p.sourcePortMax.Some? ==> 1 <= p.sourcePortMax.value <= 65535
  {
    if KeyPortMin in b { assert Declared(KeyPortMin, IntValue(b[KeyPortMin])); }
    if KeyPortMax in b { assert Declared(KeyPortMax, IntValue(b[KeyPortMax])); }
    if KeySourcePortMin in b { assert Declared(KeySourcePortMin, IntValue(b[KeySourcePortMin])); }
    if KeySourcePortMax in b { assert Declared(KeySourcePortMax, IntValue(b[KeySourcePortMax])); }
  }
}
