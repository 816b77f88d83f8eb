/** Data source `ibm_is_instance_group_managers`: every manager of one
    instance group, listed page by page, then written as one record per
    manager whose shape depends on whether the manager is scheduled. */
module InstanceGroupManagers {
  import opened Wrappers
  import opened RemoteApi
  import opened Pagination
  import opened CompositeIds

  const ManagerTypeScheduled: string := "scheduled"

  datatype ActionRef = ActionRef(id: string, name: string, resourceType: string)

  datatype PolicyRef = PolicyRef(id: string)

  /** InstanceGroupManager as the API returns it. A nil slice is None; the
      four autoscale numbers are read only from non-scheduled managers. */
  datatype Manager = Manager(
    id: string,
    name: string,
    managerType: string,
    aggregationWindow: int,
    cooldown: int,
    maxMembershipCount: int,
    minMembershipCount: int,
    policies: Option<seq<PolicyRef>>,
    actions: Option<seq<ActionRef>>)

  function ManagerId(m: Manager): string
  {
    m.id
  }

  /** One element of a scheduled manager's `actions`. */
  datatype ActionRecord = ActionRecord(action: string, actionName: string, resourceType: string)

  /** One element of `instance_group_managers`. A scheduled record whose
      `actions` is None does not set that key at all. */
  datatype ManagerRecord =
    | ScheduledRecord(id: string, managerId: string, name: string, managerType: string,
                      actions: Option<seq<ActionRecord>>)
    | AutoScaleRecord(id: string, managerId: string, name: string,
                      aggregationWindow: int, cooldown: int,
                      maxMembershipCount: int, minMembershipCount: int,
                      managerType: string, policies: seq<string>)

  // ------------------------------------------------------------ the records

  function ActionRecordOf(a: ActionRef): ActionRecord
  {
    ActionRecord(a.id, a.name, a.resourceType)
  }

  /** The action records of a list of actions, in order. */
  function ActionRecords(refs: seq<ActionRef>): seq<ActionRecord>
    decreases |refs|
  {
    if |refs| == 0 then []
    else ActionRecords(refs[..|refs| - 1]) + [ActionRecordOf(refs[|refs| - 1])]
  }

  /** The ids of a list of policies, in order. */
  function PolicyIds(refs: seq<PolicyRef>): seq<string>
    decreases |refs|
  {
    if |refs| == 0 then []
    else PolicyIds(refs[..|refs| - 1]) + [refs[|refs| - 1].id]
  }

  /** The record the read writes for manager `m` of group `groupId`. */
  function ManagerRecordOf(groupId: string, m: Manager): ManagerRecord
  {
    var id := Join([groupId, m.id], Slash);
    if m.managerType == ManagerTypeScheduled then
      ScheduledRecord(id, m.id, m.name, m.managerType,
                      if m.actions.None? then None else Some(ActionRecords(m.actions.value)))
    else
      AutoScaleRecord(id, m.id, m.name, m.aggregationWindow, m.cooldown,
                      m.maxMembershipCount, m.minMembershipCount, m.managerType,
                      if m.policies.None? then [] else PolicyIds(m.policies.value))
  }

  /** One action record per action, in order. */
  lemma {:induction false} ActionRecordsPointwise(refs: seq<ActionRef>)
    ensures |ActionRecords(refs)| == |refs|
    ensures forall i :: 0 <= i < |refs| ==> ActionRecords(refs)[i] == ActionRecordOf(refs[i])
    decreases |refs|
  {
    if |refs| > 0 {
      var front := refs[..|refs| - 1];
      ActionRecordsPointwise(front);
      assert forall i :: 0 <= i < |front| ==> refs[i] == front[i];
    }
  }

  /** One policy id per policy, in order. */
  lemma {:induction false} PolicyIdsPointwise(refs: seq<PolicyRef>)
    ensures |PolicyIds(refs)| == |refs|
    ensures forall i :: 0 <= i < |refs| ==> PolicyIds(refs)[i] == refs[i].id
    decreases |refs|
  {
    if |refs| > 0 {
      var front := refs[..|refs| - 1];
      PolicyIdsPointwise(front);
      assert forall i :: 0 <= i < |front| ==> refs[i] == front[i];
    }
  }

  /** The record's shape follows the manager type alone: scheduled managers
      give a record without the autoscale fields, carrying actions exactly
      when the manager has an action list; every other manager gives an
      autoscale record whose policies are its policy ids, none when it has
      no policy list. Both carry the id "group/manager" and keep the bare
      manager id, name and type. */
  lemma RecordShape(groupId: string, m: Manager)
    ensures var rec := ManagerRecordOf(groupId, m);
      && (rec.ScheduledRecord? <==> m.managerType == ManagerTypeScheduled)
      && rec.id == groupId + "/" + m.id
      && rec.managerId == m.id && rec.name == m.name && rec.managerType == m.managerType
      && (rec.ScheduledRecord? ==>
            && (rec.actions.Some? <==> m.actions.Some?)
            && (rec.actions.Some? ==>
                  && |rec.actions.value| == |m.actions.value|
                  && forall i :: 0 <= i < |m.actions.value| ==>
                       rec.actions.value[i] == ActionRecordOf(m.actions.value[i])))
      && (rec.AutoScaleRecord? ==>
            && rec.aggregationWindow == m.aggregationWindow && rec.cooldown == m.cooldown
            && rec.maxMembershipCount == m.maxMembershipCount
            && rec.minMembershipCount == m.minMembershipCount
            && (m.policies.None? ==> rec.policies == [])
            && (m.policies.Some? ==>
                  && |rec.policies| == |m.policies.value|
                  && forall i :: 0 <= i < |m.policies.value| ==> rec.policies[i] == m.policies.value[i].id))
  {
    assert [groupId, m.id][1..] == [m.id];
    assert Join([groupId, m.id], Slash) == groupId + [Slash] + m.id;
    assert "/" == [Slash];
    if m.actions.Some? {
      ActionRecordsPointwise(m.actions.value);
    }
    if m.policies.Some? {
      PolicyIdsPointwise(m.policies.value);
    }
  }

  /** The record id is "group/manager": when neither id holds a slash,
      splitting it on '/' gives back the group id and the manager id. */
  lemma RecordIdSplits(groupId: string, m: Manager)
    requires Slash !in groupId && Slash !in m.id
    ensures Split(ManagerRecordOf(groupId, m).id, Slash) == [groupId, m.id]
  {
    SplitJoin([groupId, m.id], Slash);
  }

  /** Managers of one group with distinct slash-free ids get distinct record ids. */
  lemma RecordIdsDistinct(groupId: string, m1: Manager, m2: Manager)
    requires Slash !in groupId && Slash !in m1.id && Slash !in m2.id
    requires m1.id != m2.id
    ensures ManagerRecordOf(groupId, m1).id != ManagerRecordOf(groupId, m2).id
  {
    RecordIdSplits(groupId, m1);
    RecordIdSplits(groupId, m2);
  }

  // -------------------------------------------------------- the record loops

  /** The actions loop of a scheduled manager. */
  method CollectActions(refs: seq<ActionRef>) returns (actions: seq<ActionRecord>)
    ensures actions == ActionRecords(refs)
  {
    actions := [];
    var i := 0;
    while i < |refs|
      invariant 0 <= i <= |refs|
      invariant actions == ActionRecords(refs[..i])
    {
      assert refs[..i + 1][..i] == refs[..i];
      actions := actions + [ActionRecordOf(refs[i])];
      i := i + 1;
    }
    assert refs[..i] == refs;
  }

  /** The policies loop of an autoscale manager. */
  method CollectPolicies(refs: seq<PolicyRef>) returns (policies: seq<string>)
    ensures policies == PolicyIds(refs)
  {
    policies := [];
    var i := 0;
    while i < |refs|
      invariant 0 <= i <= |refs|
      invariant policies == PolicyIds(refs[..i])
    {
      assert refs[..i + 1][..i] == refs[..i];
      policies := policies + [refs[i].id];
      i := i + 1;
    }
    assert refs[..i] == refs;
  }

  /** The body of the manager loop: one record, by manager type. */
  method BuildRecord(groupId: string, m: Manager) returns (rec: ManagerRecord)
    ensures rec == ManagerRecordOf(groupId, m)
  {
    var id := Join([groupId, m.id], Slash);
    if m.managerType == ManagerTypeScheduled {
      var actions: Option<seq<ActionRecord>> := None;
      if m.actions.Some? {
        var collected := CollectActions(m.actions.value);
        actions := Some(collected);
      }
      rec := ScheduledRecord(id, m.id, m.name, m.managerType, actions);
    } else {
      var policies: seq<string> := [];
      if m.policies.Some? {
        policies := CollectPolicies(m.policies.value);
      }
      rec := AutoScaleRecord(id, m.id, m.name, m.aggregationWindow, m.cooldown,
                             m.maxMembershipCount, m.minMembershipCount, m.managerType, policies);
    }
  }

  /** The manager loop: one record per collected manager, in order. */
  method BuildRecords(groupId: string, managers: seq<Manager>) returns (records: seq<ManagerRecord>)
    ensures |records| == |managers|
    ensures forall i :: 0 <= i < |managers| ==> records[i] == ManagerRecordOf(groupId, managers[i])
  {
    records := [];
    var i := 0;
    while i < |managers|
      invariant 0 <= i <= |managers| && |records| == i
      invariant forall j :: 0 <= j < i ==> records[j] == ManagerRecordOf(groupId, managers[j])
    {
      var rec := BuildRecord(groupId, managers[i]);
      records := records + [rec];
      i := i + 1;
    }
  }

  // -------------------------------------------------------------- the remote

  /** The instance group as the API keeps its managers, listed in cursor
      pages; every call may instead fail transiently, as the fault schedule
      says. */
  class InstanceGroup {
    const id: string
    const managers: seq<Manager>
    /** Page size of a manager listing. */
    const limit: nat
    /** Number of calls answered so far, and those answered with a transient error. */
    var calls: nat
    const faults: set<nat>

    ghost predicate Valid()
    {
      limit > 0 && UniqueKeys(managers, ManagerId)
    }

    constructor (id: string, managers: seq<Manager>, limit: nat, faults: set<nat>)
      requires limit > 0 && UniqueKeys(managers, ManagerId)
      ensures Valid() && calls == 0
      ensures this.id == id && this.managers == managers && this.limit == limit && this.faults == faults
    {
      this.id := id;
      this.managers := managers;
      this.limit := limit;
      this.faults := faults;
      calls := 0;
    }

    /** ListInstanceGroupManagers: one page from the cursor; an unknown
        group is not found, a cursor naming no manager a bad request. */
    method ListManagers(groupId: string, start: string) returns (r: Result<Page<Manager>, ApiError>)
      requires Valid()
      modifies this`calls
      ensures calls == old(calls) + 1
      ensures old(calls) in faults ==> r == Err(Unavailable)
      ensures old(calls) !in faults && groupId != id ==> r == Err(HttpError(NotFoundStatus))
      ensures old(calls) !in faults && groupId == id ==>
        r == match ListPage(managers, ManagerId, limit, start)
             case Ok(p) => Ok(p)
             case Err(_) => Err(HttpError(BadRequestStatus))
    {
      var fault := calls in faults;
      calls := calls + 1;
      if fault {
        return Err(Unavailable);
      }
      if groupId != id {
        return Err(HttpError(NotFoundStatus));
      }
      match ListPage(managers, ManagerId, limit, start)
      case Ok(p) => r := Ok(p);
      case Err(_) => r := Err(HttpError(BadRequestStatus));
    }
  }

  // ---------------------------------------------------------- the data source

  /** The data source's state: its argument and what a read writes. */
  class ManagersData {
    const instanceGroup: string
    var managers: seq<ManagerRecord>
    var id: string

    constructor (instanceGroup: string)
      ensures this.instanceGroup == instanceGroup && managers == [] && id == ""
    {
      this.instanceGroup := instanceGroup;
      managers := [];
      id := "";
    }
  }

  /** One list call of the walk, from the cursor of offset `pos` after
      `made` of the walk's `total` calls. */
  method ListStep(group: InstanceGroup, groupId: string, start: string, ghost pos: nat, ghost made: nat, ghost total: nat)
    returns (r: Result<Page<Manager>, ApiError>)
    requires group.Valid() && CursorAt(group.managers, ManagerId, pos, start)
    requires made + PagesFrom(|group.managers|, group.limit, pos) == total
    modifies group`calls
    ensures group.calls == old(group.calls) + 1
    ensures r.Ok? <==> old(group.calls) !in group.faults && groupId == group.id
    ensures r.Err? ==> r.error == if old(group.calls) in group.faults then Unavailable else HttpError(NotFoundStatus)
    ensures r.Ok? ==>
      var p := r.value;
      && pos + |p.items| <= |group.managers|
      && group.managers[..pos] + p.items == group.managers[..pos + |p.items|]
      && (p.next == "" ==> pos + |p.items| == |group.managers| && made + 1 == total)
      && (p.next != "" ==>
            && 0 < |p.items| && pos + |p.items| < |group.managers|
            && made + 1 + PagesFrom(|group.managers|, group.limit, pos + |p.items|) == total
            && CursorAt(group.managers, ManagerId, pos + |p.items|, p.next))
  {
    CursorLists(group.managers, ManagerId, group.limit, pos, start);
    r := group.ListManagers(groupId, start);
    PageWalkStep(group.managers, ManagerId, group.limit, pos, made, total);
  }

  /** The pagination loop: list pages following the cursor until it is
      empty, collecting the managers in server order; any failing call ends
      the walk with its error. */
  method ListAllManagers(group: InstanceGroup, groupId: string) returns (r: Result<seq<Manager>, ApiError>)
    requires group.Valid()
    modifies group`calls
    ensures groupId != group.id ==>
      && r == Err(if old(group.calls) in group.faults then Unavailable else HttpError(NotFoundStatus))
      && group.calls == old(group.calls) + 1
    ensures groupId == group.id ==>
      var lists := PagesFrom(|group.managers|, group.limit, 0);
      var f := FirstFault(group.faults, old(group.calls), lists);
      && (r.Ok? <==> f == lists)
      && (r.Ok? ==> r.value == group.managers)
      && (r.Err? ==> r.error == Unavailable)
      && group.calls == old(group.calls) + (if f < lists then f + 1 else f)
  {
    ghost var calls0 := group.calls;
    ghost var n := |group.managers|;
    ghost var lists := PagesFrom(n, group.limit, 0);

    var start := "";
    var allrecs: seq<Manager> := [];
    ghost var pos: nat := 0;
    ghost var pages: nat := 0;
    var done := false;
    while !done
      invariant pos <= n && allrecs == group.managers[..pos]
      invariant group.calls == calls0 + pages
      invariant FirstFault(group.faults, calls0, pages) == pages
      invariant !done ==> pages + PagesFrom(n, group.limit, pos) == lists
      invariant !done ==> CursorAt(group.managers, ManagerId, pos, start)
      invariant done ==> pos == n && pages == lists
      invariant done || pages > 0 ==> groupId == group.id
      decreases (if done then 0 else 1) + n - pos
    {
      if groupId == group.id {
        FirstFaultStep(group.faults, calls0, pages, lists);
      }
      var listed := ListStep(group, groupId, start, pos, pages, lists);
      if listed.Err? {
        return Err(listed.error);
      }
      var page := listed.value;
      start := page.next;
      allrecs := allrecs + page.items;
      pos := pos + |page.items|;
      pages := pages + 1;
      if start == "" {
        done := true;
      }
    }
    assert allrecs == group.managers;
    r := Ok(allrecs);
  }

  /** dataSourceIBMISInstanceGroupManagersRead: collect every manager, then
      write one record per manager and the id. A failed listing writes
      nothing. The id is a timestamp; `now` stands for it. */
  method ReadManagers(d: ManagersData, group: InstanceGroup, now: string) returns (r: Outcome<ApiError>)
    requires group.Valid()
    modifies d`managers, d`id, group`calls
    ensures r.Fail? ==> d.managers == old(d.managers) && d.id == old(d.id)
    ensures d.instanceGroup != group.id ==>
      && r == Fail(if old(group.calls) in group.faults then Unavailable else HttpError(NotFoundStatus))
      && group.calls == old(group.calls) + 1
    ensures d.instanceGroup == group.id ==>
      var lists := PagesFrom(|group.managers|, group.limit, 0);
      var f := FirstFault(group.faults, old(group.calls), lists);
      && (r.Pass? <==> f == lists)
      && (r.Fail? ==> r.error == Unavailable)
      && group.calls == old(group.calls) + (if f < lists then f + 1 else f)
    ensures r.Pass? ==>
      && d.id == now
      && |d.managers| == |group.managers|
      && forall i :: 0 <= i < |group.managers| ==> d.managers[i] == ManagerRecordOf(d.instanceGroup, group.managers[i])
  {
    var listed := ListAllManagers(group, d.instanceGroup);
    if listed.Err? {
      return Fail(listed.error);
    }
    var records := BuildRecords(d.instanceGroup, listed.value);
    d.managers := records;
    d.id := now;
    r := Pass;
  }
}
