# VPC network ACLs, NIC floating IPs and instance group managers

This project models three pieces of the IBM Cloud Terraform provider's VPC
service and proves what they promise.

- **Resource `ibm_is_network_acl`.**
  - Validation of inline rules: the action enum, and at most one of the icmp, tcp and udp blocks.
  - The rule prototype built for each configured rule. The protocol is icmp, then tcp, then udp, else `all`. Only the keys present in the chosen block are copied, and `before` is never set.
  - `clearRules`: list every rule by cursor pagination, then delete each one in order.
  - `createInlineRules`: one create per configured rule, in order, stopping at the first error.
  - The read, which flattens the three-variant rule union into flat records.
  - The create, read, update, delete and exists handlers, including their 404 handling.
  - The ranges and enums declared by the resource's validator.
- **Resource `ibm_is_bare_metal_server_network_interface_floating_ip`.**
  - The composite id `server/nic/fip` and its parser.
  - The two refresh classifications and the Pending and Target labels of both waits.
  - The availability wait, which writes the observed status.
  - The read handler and the delete handler: pre-check get, remove, wait, clear the id.
- **Data source `ibm_is_instance_group_managers`.**
  - The cursor-paginated listing of a group's managers.
  - One record per manager. Its shape depends on whether the manager type is `scheduled`, and its id is `group/manager`.

## How the remote side is modelled

- The VPC API is a pair of small classes.
  - `NetworkAclService.NetworkAcl` holds one ACL with an ordered rule table and a page size.
  - `InstanceGroupManagers.InstanceGroup` holds one group's managers.
- Both list in cursor pages (module `Pagination`).
  - A page holds at most `limit` items.
  - The cursor of the next page is the id of the first item the page left out. The empty cursor means the listing is finished.
  - Ids are unique and non-empty (`Valid`).
- Every call may fail with a transient error.
  - A class counts its calls in `calls`. The call numbers in `faults` are answered with `Unavailable`.
  - `RemoteApi.FirstFault` gives the first faulty call in a window of calls.
  - The handlers' contracts say exactly which window of calls decides success.
- The floating-IP handlers take the remote as a lookup function (the GET for an id triple) and a remove function.
- A wait takes the sequence of outcomes its refresh would observe before the timeout. `StateWait` models the plugin SDK's `WaitForState` over that finite sequence.
- The data source's id is a timestamp. It is the parameter `now`.

## Model

| member | source | states |
|---|---|---|
| NetworkAclRules.RuleCheck | ibm/service/vpc/resource_ibm_is_networkacls.go:898-915 | a rule passes exactly when its action is allow or deny and at most one of icmp, tcp and udp is non-empty; another action gives the invalid-action error whatever the blocks are, and an allowed action with two or more blocks gives the conflicting-protocols error |
| NetworkAclRules.ValidateInlineRules | ibm/service/vpc/resource_ibm_is_networkacls.go:897-918 | validation passes exactly when every rule passes (so the empty list passes); on failure the error is that of the first failing rule |
| NetworkAclRules.ValidationRejects | ibm/service/vpc/resource_ibm_is_networkacls.go:900-914 | a rule with another action, or with two or more protocol blocks, makes the whole validation fail whatever the other rules are |
| NetworkAclRules.ValidationIgnoresDirection | ibm/service/vpc/resource_ibm_is_networkacls.go:905-906 | the lower-cased direction is never used: rules differing only in direction validate alike |
| NetworkAclRules.ValidatedProtocol | ibm/service/vpc/resource_ibm_is_networkacls.go:956-1013 | for a validated rule the icmp/tcp/udp/all order is no priority: the protocol names the one block given, or is all when none is |
| NetworkAclRules.PrototypeFields | ibm/service/vpc/resource_ibm_is_networkacls.go:941-1013 | the prototype copies the five plain fields, never sets before, takes the protocol icmp, then tcp, then udp, else all, and carries exactly the fields of that block that are present |
| NetworkAclRules.WithPorts | ibm/service/vpc/resource_ibm_is_networkacls.go:973-988 | each port field is set exactly when its key is in the block, to the block's value; nothing else changes |
| NetworkAclRules.BuildRuleTemplate | ibm/service/vpc/resource_ibm_is_networkacls.go:941-1013 | the template built step by step equals the prototype of the rule |
| NetworkAclRules.SetPorts | ibm/service/vpc/resource_ibm_is_networkacls.go:973-988 | the four key-present assignments give the block's ports on a template without ports |
| NetworkAclRules.FlattenRule | ibm/service/vpc/resource_ibm_is_networkacls.go:583-656 | a record keeps the rule's id, name, action, IP version, source, destination and direction, and its subnets is the ACL's subnet count |
| NetworkAclRules.FlattenShape | ibm/service/vpc/resource_ibm_is_networkacls.go:583-656 | an icmp rule gives one icmp element, empty unless both code and type are present, and no tcp or udp; a tcp or udp rule gives exactly one block of its own kind, holding all four port keys (PortsRead), and the other two lists empty; a rule of any other protocol sets none of the three; all gives three empty lists |
| NetworkAclRules.PortsRead | ibm/service/vpc/resource_ibm_is_networkacls.go:620-638 | the port block read back has exactly the four port keys, each the rule's port or 0 when the rule carries none |
| NetworkAclRules.FlattenedRuleValidates | ibm/service/vpc/resource_ibm_is_networkacls.go:583-656 | a record read back, taken as configuration, never gives two protocol blocks, so it validates when its action does |
| NetworkAclRules.ActionEnumAgrees | ibm/service/vpc/resource_ibm_is_networkacls.go:299-303 | the validator's action enum and the check in validateInlineRules accept the same actions |
| NetworkAclRules.PrototypeWithinDeclaredRanges | ibm/service/vpc/resource_ibm_is_networkacls.go:343-382 | a rule within the declared ranges yields a prototype with ICMP type 0-254, code 0-255 and every port 1-65535 |
| NetworkAclRules.PortsDeclared | ibm/service/vpc/resource_ibm_is_networkacls.go:357-382 | ports copied from a block within the declared ranges lie in 1-65535 |
| Pagination.CursorResumes | ibm/service/vpc/resource_ibm_is_networkacls.go:855-869 | listing from the cursor a page hands out resumes exactly where that page stopped |
| Pagination.PageWalkStep | ibm/service/vpc/resource_ibm_is_networkacls.go:855-869 | each page continues the rules collected so far, and either ends the walk or hands out the cursor of the next offset |
| NetworkAclResource.ListStep | ibm/service/vpc/resource_ibm_is_networkacls.go:856-867 | one list call from the current cursor: on success the page extends the collected prefix of the table; an error is the call's own |
| NetworkAclResource.ListAllRules | ibm/service/vpc/resource_ibm_is_networkacls.go:853-870 | the loop succeeds exactly when none of its page-count calls fails, and then returns the whole table in server order; the first failing call ends it |
| NetworkAclResource.DeleteListed | ibm/service/vpc/resource_ibm_is_networkacls.go:872-893 | one delete per collected rule in order; the first failing delete stops the loop with exactly the rules before it gone |
| NetworkAclResource.ClearRules | ibm/service/vpc/resource_ibm_is_networkacls.go:852-894 | clearRules empties the table exactly when none of its list and delete calls fails; otherwise the table loses exactly the rules deleted before the first failing call, which ends it |
| NetworkAclResource.AppendRulesKeeps | ibm/service/vpc/resource_ibm_is_networkacls.go:920-1024 | creating rules keeps the rules already in the table, in place |
| NetworkAclResource.AppendRulesCreated | ibm/service/vpc/resource_ibm_is_networkacls.go:920-1024 | the i-th rule created is stored as the prototype of the i-th configured rule, in configuration order |
| NetworkAclResource.AppendRulesUnique | ibm/service/vpc/resource_ibm_is_networkacls.go:1015-1022 | created rules get ids not yet in use, so rule ids stay unique |
| NetworkAclResource.CreateStep | ibm/service/vpc/resource_ibm_is_networkacls.go:923-1022 | one iteration: on success the table holds one more configured rule; on failure it is unchanged and this call is the first failing one |
| NetworkAclResource.CreateInlineRules | ibm/service/vpc/resource_ibm_is_networkacls.go:920-1024 | one create per configured rule in order: the table gains the prototypes of exactly the rules before the first failing call, and the result passes exactly when there is none |
| NetworkAclResource.FlattenRules | ibm/service/vpc/resource_ibm_is_networkacls.go:580-659 | the read writes one record per rule, in server order |
| NetworkAclResource.PortBlockOfComplete | ibm/service/vpc/resource_ibm_is_networkacls.go:608-640 | a port block with all four keys reads back unchanged |
| NetworkAclResource.IcmpBlockOfComplete | ibm/service/vpc/resource_ibm_is_networkacls.go:599-606 | an icmp block with both code and type reads back unchanged |
| NetworkAclResource.CreatedRuleReadsBack | ibm/service/vpc/resource_ibm_is_networkacls.go:583-656 | write then read: a validated rule with complete blocks, created under any id, reads back as the rule configured |
| NetworkAclResource.IcmpPartialReadsEmpty | ibm/service/vpc/resource_ibm_is_networkacls.go:599-606 | an icmp block giving only one of type and code reads back as an empty element |
| NetworkAclResource.CreatedItemReadsBack | ibm/service/vpc/resource_ibm_is_networkacls.go:583-656 | each created rule of the table reads back as its configured rule |
| NetworkAclResource.CreatedTableReadsBack | ibm/service/vpc/resource_ibm_is_networkacls.go:583-656 | the whole table a create leaves reads back rule for rule as configured |
| NetworkAclResource.ReplaceRules | ibm/service/vpc/resource_ibm_is_networkacls.go:470-483 | clearRules then createInlineRules pass exactly when no call of either fails, and then the table is exactly the configured rules |
| NetworkAclResource.NwaclCreate | ibm/service/vpc/resource_ibm_is_networkacls.go:417-502 | validation comes before any call; the id is set as soon as the ACL exists; the create passes exactly when no call fails, and then the table is exactly the configured rules |
| NetworkAclResource.CreateAndFill | ibm/service/vpc/resource_ibm_is_networkacls.go:456-502 | after validation: a failed create leaves the id and the ACL's presence, name, rules and subnet count unchanged, with one call spent; otherwise the id is the new ACL's, it carries the requested or generated name, the whole sequence passes exactly when no call in it fails, and then the table is exactly the configured rules |
| NetworkAclResource.NwaclRead | ibm/service/vpc/resource_ibm_is_networkacls.go:513-662 | a 404 clears the id and is no error; another error changes nothing; otherwise the name and one flattened record per rule are written |
| NetworkAclResource.ResourceCreate | ibm/service/vpc/resource_ibm_is_networkacls.go:406-415 | create then read: on success the state holds one record per configured rule, each reading back as configured when its blocks are complete |
| NetworkAclResource.NwaclUpdate | ibm/service/vpc/resource_ibm_is_networkacls.go:700-768 | the rename comes first; rules are validated only when they changed, before any rule call; on success the table is exactly the new rules |
| NetworkAclResource.NwaclDelete | ibm/service/vpc/resource_ibm_is_networkacls.go:781-815 | a 404 on the pre-check clears the id and is no error; a successful delete removes the ACL and clears the id; a failure changes neither |
| NetworkAclResource.NwaclExists | ibm/service/vpc/resource_ibm_is_networkacls.go:823-843 | exists is true exactly when the get succeeds; a 404 gives false without error; any other failure is an error |
| CompositeIds.SplitJoin | ibm/service/vpc/resource_ibm_is_bare_metal_server_network_interface_floating_ip.go:402 | splitting joined slash-free parts gives the parts back |
| CompositeIds.JoinSplit | ibm/service/vpc/resource_ibm_is_bare_metal_server_network_interface_floating_ip.go:402 | joining the segments of any string gives the string back |
| CompositeIds.SplitCount | ibm/service/vpc/resource_ibm_is_bare_metal_server_network_interface_floating_ip.go:402 | a string splits into one segment more than it has separators |
| FloatingIpAttachment.MakeIsJoin | ibm/service/vpc/resource_ibm_is_bare_metal_server_network_interface_floating_ip.go:395-399 | the made id is exactly server + "/" + nic + "/" + fip |
| FloatingIpAttachment.ParseNicFipId | ibm/service/vpc/resource_ibm_is_bare_metal_server_network_interface_floating_ip.go:401-410 | a parsed id gives three non-empty, slash-free components |
| FloatingIpAttachment.MadeIdSplits | ibm/service/vpc/resource_ibm_is_bare_metal_server_network_interface_floating_ip.go:395-410 | the composite id splits at "/" into the segments of its three components, in order |
| FloatingIpAttachment.MakeThenParse | ibm/service/vpc/resource_ibm_is_bare_metal_server_network_interface_floating_ip.go:395-410 | parsing a made id gives its components back exactly when each is non-empty and slash-free |
| FloatingIpAttachment.ParseThenMake | ibm/service/vpc/resource_ibm_is_bare_metal_server_network_interface_floating_ip.go:395-410 | an id that parses is the made id of its components |
| FloatingIpAttachment.ParseSegmentCount | ibm/service/vpc/resource_ibm_is_bare_metal_server_network_interface_floating_ip.go:402-405 | parsing fails with the segment-count error exactly when the id does not hold exactly two slashes |
| FloatingIpAttachment.ParseEmptySegment | ibm/service/vpc/resource_ibm_is_bare_metal_server_network_interface_floating_ip.go:406-408 | parsing fails with the empty-segment error exactly when the id has two slashes and an empty segment |
| StateWait.WaitForState | ibm/service/vpc/resource_ibm_is_bare_metal_server_network_interface_floating_ip.go:316-325 | a wait reaches only a target label, reports an unexpected label only outside both lists, and times out only after pending observations |
| StateWait.Polls | ibm/service/vpc/resource_ibm_is_bare_metal_server_network_interface_floating_ip.go:316-325 | the wait refreshes until the first observation that stops it, and no further |
| StateWait.WaitDecidedAt | ibm/service/vpc/resource_ibm_is_bare_metal_server_network_interface_floating_ip.go:316-325 | the first observation that does not keep the wait going decides its outcome, after exactly that many refreshes |
| StateWait.WaitTimesOut | ibm/service/vpc/resource_ibm_is_bare_metal_server_network_interface_floating_ip.go:316-325 | the wait times out exactly when every observation keeps it going, having made every refresh |
| StateWait.WaitIgnoresLater | ibm/service/vpc/resource_ibm_is_bare_metal_server_network_interface_floating_ip.go:316-325 | observations after the deciding one change neither the outcome nor the number of refreshes |
| StateWait.UnexpectedWitness | ibm/service/vpc/resource_ibm_is_bare_metal_server_network_interface_floating_ip.go:316-325 | an unexpected label is one some error-free observation carried |
| FloatingIpAttachment.DeleteRefreshWaiting | ibm/service/vpc/resource_ibm_is_bare_metal_server_network_interface_floating_ip.go:328-346 | the delete wait goes on exactly while the attachment is found; a 404 reaches deleted, another error fails the wait |
| FloatingIpAttachment.DeleteWaitOutcome | ibm/service/vpc/resource_ibm_is_bare_metal_server_network_interface_floating_ip.go:314-346 | the delete wait reaches deleted exactly when a 404 comes while every earlier poll still found the attachment, times out exactly when every poll found it, and never ends on an unexpected label |
| FloatingIpAttachment.AvailableWaitOutcome | ibm/service/vpc/resource_ibm_is_bare_metal_server_network_interface_floating_ip.go:348-393 | the availability wait reaches only available or failed, never an unexpected label, and times out exactly when every fetch found another status |
| FloatingIpAttachment.RefreshAvailable | ibm/service/vpc/resource_ibm_is_bare_metal_server_network_interface_floating_ip.go:362-393 | an error gives "" with the error; otherwise the status is written to the state, and available and failed pass through while every other status reads as pending |
| FloatingIpAttachment.WaitAvailable | ibm/service/vpc/resource_ibm_is_bare_metal_server_network_interface_floating_ip.go:348-393 | the loop's outcome is the wait over the observed fetches, and the status attribute is that of the last successful fetch among the polls the wait made (the initial status when none succeeded): the label reached, the last poll's status on a timeout, the previous poll's status on a failed refresh |
| FloatingIpAttachment.AvailableWaitStatus | ibm/service/vpc/resource_ibm_is_bare_metal_server_network_interface_floating_ip.go:348-393 | by outcome, the last status written by the polls the wait made: the label reached; the last poll's on a timeout; on a failed refresh the poll before it, or the initial status when the first poll fails |
| FloatingIpAttachment.ReadAttachment | ibm/service/vpc/resource_ibm_is_bare_metal_server_network_interface_floating_ip.go:151-183 | a bad id or a fetch error other than 404 is an error and changes no attribute; a 404 clears the id, changes nothing else and is no error; a found attachment is copied (name, address, status, zone, crn, target when present) with an id rebuilt from the fetched floating IP |
| FloatingIpAttachment.CopyAttachment | ibm/service/vpc/resource_ibm_is_bare_metal_server_network_interface_floating_ip.go:186-217 | the id is made from server, NIC and fetched floating-IP ids; name, address, status, zone and crn are copied; target only when the target is a FloatingIPTarget |
| FloatingIpAttachment.DeleteAttachment | ibm/service/vpc/resource_ibm_is_bare_metal_server_network_interface_floating_ip.go:256-311 | a 404 on the pre-check ends with success and no remove; otherwise remove, then wait; the id is cleared only when the wait reached deleted, and a failure leaves it |
| InstanceGroupManagers.ActionRecordsPointwise | ibm/service/vpc/data_source_ibm_is_instance_group_managers.go:168-179 | one action record per action, in order |
| InstanceGroupManagers.PolicyIdsPointwise | ibm/service/vpc/data_source_ibm_is_instance_group_managers.go:194-199 | one policy id per policy, in order |
| InstanceGroupManagers.RecordShape | ibm/service/vpc/data_source_ibm_is_instance_group_managers.go:157-202 | every record's id is group + "/" + manager id, whatever the ids hold; scheduled managers give id, manager_id, name and type, with actions exactly when the manager has an action list; every other manager adds the four autoscale numbers and its policy ids, none for a nil list |
| InstanceGroupManagers.RecordIdSplits | ibm/service/vpc/data_source_ibm_is_instance_group_managers.go:162 | the record id is group/manager: splitting it gives back the group id and the manager id |
| InstanceGroupManagers.RecordIdsDistinct | ibm/service/vpc/data_source_ibm_is_instance_group_managers.go:162 | managers of one group with distinct slash-free ids get distinct record ids |
| InstanceGroupManagers.CollectActions | ibm/service/vpc/data_source_ibm_is_instance_group_managers.go:168-179 | the actions loop builds the action records of the manager's actions |
| InstanceGroupManagers.CollectPolicies | ibm/service/vpc/data_source_ibm_is_instance_group_managers.go:194-199 | the policies loop builds the policy ids of the manager's policies |
| InstanceGroupManagers.BuildRecord | ibm/service/vpc/data_source_ibm_is_instance_group_managers.go:158-202 | the loop body builds the record the manager type calls for |
| InstanceGroupManagers.BuildRecords | ibm/service/vpc/data_source_ibm_is_instance_group_managers.go:156-204 | one record per collected manager, in the same order |
| InstanceGroupManagers.ListStep | ibm/service/vpc/data_source_ibm_is_instance_group_managers.go:133-152 | one list call from the current cursor: on success the page extends the collected prefix of the managers |
| InstanceGroupManagers.ListAllManagers | ibm/service/vpc/data_source_ibm_is_instance_group_managers.go:129-153 | the loop starts without a cursor and succeeds exactly when none of its page-count calls fails, and then returns every manager in server order; the first failing call ends it with that error |
| InstanceGroupManagers.ReadManagers | ibm/service/vpc/data_source_ibm_is_instance_group_managers.go:119-210 | a failed listing writes nothing; success writes one record per manager, in order, and the id |

## Left out

- Schema declarations, `CustomizeDiff`, and the regular expressions and IP/CIDR checks of the validator. Those validators live in a package that is not part of this model. Only the declared numeric ranges, enums and lengths are modelled.
- Tag and access-tag synchronisation and the `IC_ENV_TAGS` lookup in create, read and update. They are external calls whose errors are only logged.
- The resource group, the VPC reference and the CRN and controller attributes that the ACL read copies. They are plain field copies.
- The controller lookup (`flex.GetBaseController`) failing. On failure, nwaclGet returns an error after the rules are already written (ibm/service/vpc/resource_ibm_is_networkacls.go:664-669). NwaclRead, like the handlers, starts from a working provider configuration.
- `vpcClient` failing. The handlers start from a working client.
- The ACL create branch for a VPC that cannot be parsed. It calls `.Error()` on a nil error, so it has no defined error path.
- `flex.GetNext`. The cursor is modelled as the id of the next page's first item, not as a URL to be parsed.
- Errors of `d.Set`. Writing the state is assumed to succeed.
- What the VPC API checks in a rule prototype (ranges, CIDRs) and where it places rules. A created rule goes to the end of the table under an id the API picks; `NetworkAclService.FreshId` is one such choice.
- `NetworkAclResource.NwaclUpdate`: does not state the window of calls that decides success once the rules changed; only what a failure leaves and what success gives. It needs no precondition that the ACL exists, so it does not reuse `ReplaceRules`' contract.
- `NetworkAclResource.CreatedRuleReadsBack`: holds only for blocks that set every key. An icmp block with only one of type and code reads back empty (`IcmpPartialReadsEmpty`). A port block without a key has no default to compare with.
- The update entry point's read after a successful update is not modelled as its own member. It is `NwaclUpdate` followed by `NwaclRead`.
- The delete wait's second target label is a constant declared in a file that is not part of this model. It is taken to be "failed".
- The floating-IP create and update handlers, and `ParseNICTerraformID` which they use. They are not part of this model.
- `FloatingIpAttachment.DeleteAttachment`: the polls the delete wait observes are a given sequence, not derived from the remove call. A GET that returns no floating IP and no error is not modelled.
- The timing of `WaitForState`: its delay, minimum timeout and the timeout itself. A timeout is modelled as reaching the end of the observed sequence. The communicator channel the availability refresh closes is concurrency and is left out.
- The data source's timestamp id. It is the parameter `now`.
- The data source dereferences the four autoscale numbers of a non-scheduled manager without a nil check. Here they are always present.
- The action fields are `*string` in the API and are written to the state as such. Here they are plain strings.
