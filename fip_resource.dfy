/** The floating IP attached to a bare metal server's network interface
    (resource `ibm_is_bare_metal_server_network_interface_floating_ip`): its
    composite id `server/nic/fip`, the two refresh classifications and wait
    configurations, and the read and delete handlers. The remote side is a
    lookup function (the GET for a given id triple), a remove function, and
    the sequence of GET outcomes the delete wait observes over time. */
module FloatingIpAttachment {
  import opened Wrappers
  import opened RemoteApi
  import opened CompositeIds
  import opened StateWait

  // Status labels of the attachment.
  const Available: string := "available"
  const Deleting: string := "deleting"
  const PendingLabel: string := "pending"
  const PciPending: string := "pci_pending"
  const Deleted: string := "deleted"
  const Failed: string := "failed"
  const HardStop: string := "hard_stop"
  /** The second target label of the delete wait is a constant declared in a
      file outside this model (isBareMetalServerNetworkInterfaceFailed); its
      value is taken to be "failed". */
  const NicFailed: string := "failed"

  // ---------------------------------------------------------------- ids

  datatype FipIds = FipIds(server: string, nic: string, fip: string)

  datatype IdError = WrongSegmentCount | EmptySegment

  /** MakeTerraformNICFipID */
  function MakeNicFipId(server: string, nic: string, fip: string): string
  {
    server + "/" + nic + "/" + fip
  }

  /** ParseNICFipTerraformID: exactly three '/'-separated segments, none empty. */
  function ParseNicFipId(s: string): (r: Result<FipIds, IdError>)
    ensures r.Ok? ==> Slash !in r.value.server && Slash !in r.value.nic && Slash !in r.value.fip
    ensures r.Ok? ==> r.value.server != "" && r.value.nic != "" && r.value.fip != ""
  {
    var segments := Split(s, Slash);
    if |segments| != 3 then Err(WrongSegmentCount)
    else if segments[0] == "" || segments[1] == "" || segments[2] == "" then Err(EmptySegment)
    else Ok(FipIds(segments[0], segments[1], segments[2]))
  }

  /** A well-formed component: non-empty and slash-free. */
  predicate IdComponent(s: string)
  {
    s != "" && Slash !in s
  }

  lemma MakeIsJoin(server: string, nic: string, fip: string)
    ensures MakeNicFipId(server, nic, fip) == Join([server, nic, fip], Slash)
  {
    assert [server, nic, fip][1..] == [nic, fip];
    assert [nic, fip][1..] == [fip];
    assert Join([nic, fip], Slash) == nic + [Slash] + fip;
    assert "/" == [Slash];
  }

  /** A made id splits into the segments of its three components. */
  lemma MadeIdSplits(server: string, nic: string, fip: string)
    ensures Split(MakeNicFipId(server, nic, fip), Slash) == Split(server, Slash) + Split(nic, Slash) + Split(fip, Slash)
  {
    assert MakeNicFipId(server, nic, fip) == server + [Slash] + (nic + [Slash] + fip);
    SplitAround(server, nic + [Slash] + fip, Slash);
    SplitAround(nic, fip, Slash);
  }

  /** Round trip: parsing a made id returns its components exactly when each
      is non-empty and slash-free. */
  lemma MakeThenParse(server: string, nic: string, fip: string)
    ensures ParseNicFipId(MakeNicFipId(server, nic, fip)) == Ok(FipIds(server, nic, fip))
        <==> IdComponent(server) && IdComponent(nic) && IdComponent(fip)
  {
    var parts := Split(MakeNicFipId(server, nic, fip), Slash);
    MadeIdSplits(server, nic, fip);
    SplitSingle(server, Slash);
    SplitSingle(nic, Slash);
    SplitSingle(fip, Slash);
    if |parts| == 3 {
      // each component splits into at least one segment, so each into exactly one
      assert parts == [server, nic, fip];
    }
  }

  /** Conversely, an id that parses is the made id of what it parses to. */
  lemma ParseThenMake(s: string)
    requires ParseNicFipId(s).Ok?
    ensures var ids := ParseNicFipId(s).value; MakeNicFipId(ids.server, ids.nic, ids.fip) == s
  {
    var ids := ParseNicFipId(s).value;
    JoinSplit(s, Slash);
    assert Split(s, Slash) == [ids.server, ids.nic, ids.fip];
    MakeIsJoin(ids.server, ids.nic, ids.fip);
  }

  /** An id with other than two slashes fails with the segment-count error,
      and one with two slashes never does. */
  lemma ParseSegmentCount(s: string)
    ensures ParseNicFipId(s) == Err(WrongSegmentCount) <==> Occurrences(s, Slash) != 2
  {
    SplitCount(s, Slash);
  }

  /** Two slashes but an empty segment (leading, trailing or doubled slash)
      fails with the empty-segment error. */
  lemma ParseEmptySegment(s: string)
    ensures ParseNicFipId(s) == Err(EmptySegment) <==> Occurrences(s, Slash) == 2 && "" in Split(s, Slash)
  {
    SplitCount(s, Slash);
  }

  // ------------------------------------------------------------ remote

  datatype FloatingIp = FloatingIp(
    id: string,
    name: string,
    address: string,
    status: string,
    zone: string,
    crn: string,
    target: Option<string>)   // the id, when the target is a FloatingIPTarget

  /** Outcome of GetBareMetalServerNetworkInterfaceFloatingIP. */
  datatype Fetch = Fetched(fip: FloatingIp) | FetchFailed(error: ApiError)

  // -------------------------------------------------------- delete wait

  /** isBareMetalServerNetworkInterfaceFloatingIpDeleteRefreshFunc */
  function DeleteRefresh(f: Fetch): Refreshed
  {
    match f
    case FetchFailed(e) => if IsNotFound(e) then Refreshed(Deleted, false) else Refreshed(Failed, true)
    case Fetched(_) => Refreshed(Deleting, false)
  }

  const DeleteWait: WaitConfig :=
    WaitConfig([Available, Deleting, PendingLabel], [Deleted, NicFailed, ""], 10, 10)

  function DeleteObservations(fetches: seq<Fetch>): (obs: seq<Refreshed>)
    ensures |obs| == |fetches|
    ensures forall i :: 0 <= i < |fetches| ==> obs[i] == DeleteRefresh(fetches[i])
  {
    seq(|fetches|, i requires 0 <= i < |fetches| => DeleteRefresh(fetches[i]))
  }

  /** The delete refresh keeps waiting exactly while the attachment is still found. */
  lemma DeleteRefreshWaiting(f: Fetch)
    ensures Waiting(DeleteWait, DeleteRefresh(f)) <==> f.Fetched?
    ensures !f.Fetched? ==>
      Decide(DeleteWait, DeleteRefresh(f)) == (if IsNotFound(f.error) then Reached(Deleted) else RefreshFailed)
  {
  }

  /** The delete wait succeeds, with "deleted", exactly when a 404 arrives
      while every earlier poll still found the attachment; any other error
      ends it in failure; it never ends on an unexpected label. */
  lemma DeleteWaitOutcome(fetches: seq<Fetch>)
    ensures var r := WaitForState(DeleteWait, DeleteObservations(fetches));
      && !r.UnexpectedState?
      && (r.Reached? ==> r.state == Deleted)
      && (r == Reached(Deleted) <==>
            exists k :: 0 <= k < |fetches| && fetches[k].FetchFailed? && IsNotFound(fetches[k].error)
                        && forall j :: 0 <= j < k ==> fetches[j].Fetched?)
      && (r == TimedOut <==> forall j :: 0 <= j < |fetches| ==> fetches[j].Fetched?)
  {
    var obs := DeleteObservations(fetches);
    var r := WaitForState(DeleteWait, obs);
    WaitTimesOut(DeleteWait, obs);
    forall j | 0 <= j < |fetches| ensures Waiting(DeleteWait, obs[j]) <==> fetches[j].Fetched? {
      DeleteRefreshWaiting(fetches[j]);
    }
    if exists k :: 0 <= k < |fetches| && !fetches[k].Fetched? {
      var k := FirstNotFetched(fetches);
      WaitDecidedAt(DeleteWait, obs, k);
      DeleteRefreshWaiting(fetches[k]);
      if r == Reached(Deleted) {
        assert IsNotFound(fetches[k].error);
      }
      forall k' | 0 <= k' < |fetches| && fetches[k'].FetchFailed? && IsNotFound(fetches[k'].error)
                  && (forall j :: 0 <= j < k' ==> fetches[j].Fetched?)
        ensures r == Reached(Deleted)
      {
        assert k' == k;
      }
    }
  }

  /** Index of the first fetch that did not find the attachment. */
  function FirstNotFetched(fetches: seq<Fetch>): (k: nat)
    requires exists k :: 0 <= k < |fetches| && !fetches[k].Fetched?
    ensures k < |fetches| && !fetches[k].Fetched?
    ensures forall j :: 0 <= j < k ==> fetches[j].Fetched?
    decreases |fetches|
  {
    if !fetches[0].Fetched? then 0
    else
      var k :| 0 <= k < |fetches| && !fetches[k].Fetched?;
      assert !fetches[1..][k - 1].Fetched?;
      1 + FirstNotFetched(fetches[1..])
  }

  // ------------------------------------------------------ available wait

  /** The classification isBareMetalServerNetworkInterfaceFloatingIpRefreshFunc
      makes: an error gives "" with the error; "available" and "failed" pass
      through; every other status reads as "pending". */
  function AvailableRefresh(f: Fetch): Refreshed
  {
    match f
    case FetchFailed(_) => Refreshed("", true)
    case Fetched(fip) =>
      if fip.status == Available || fip.status == Failed then Refreshed(fip.status, false)
      else Refreshed(PendingLabel, false)
  }

  const AvailableWait: WaitConfig :=
    WaitConfig([PendingLabel], [Available, Failed], 10, 10)

  function AvailableObservations(fetches: seq<Fetch>): (obs: seq<Refreshed>)
    ensures |obs| == |fetches|
    ensures forall i :: 0 <= i < |fetches| ==> obs[i] == AvailableRefresh(fetches[i])
  {
    seq(|fetches|, i requires 0 <= i < |fetches| => AvailableRefresh(fetches[i]))
  }

  /** The availability wait ends only in "available" or "failed", in a fetch
      error, or in a timeout: the refresh folds every other status into
      "pending", so an unexpected label cannot occur. */
  lemma AvailableWaitOutcome(fetches: seq<Fetch>)
    ensures var r := WaitForState(AvailableWait, AvailableObservations(fetches));
      && !r.UnexpectedState?
      && (r.Reached? ==> r.state == Available || r.state == Failed)
      && (r == TimedOut <==>
            forall j :: 0 <= j < |fetches| ==>
              fetches[j].Fetched? && fetches[j].fip.status != Available && fetches[j].fip.status != Failed)
  {
    var obs := AvailableObservations(fetches);
    WaitTimesOut(AvailableWait, obs);
    if WaitForState(AvailableWait, obs).UnexpectedState? {
      var i := UnexpectedWitness(AvailableWait, obs);
    }
  }

  // ------------------------------------------------------ resource state

  /** The resource's Terraform state (`d`). */
  class FipResourceData {
    var id: string
    var name: string
    var address: string
    var status: string
    var zone: string
    var crn: string
    var target: string

    constructor (id: string)
      ensures this.id == id && status == ""
    {
      this.id := id;
      name, address, status, zone, crn, target := "", "", "", "", "", "";
    }
  }

  /** The availability refresh: classifies the fetch and, when the fetch
      succeeded, writes the observed status into `status`. */
  method RefreshAvailable(d: FipResourceData, f: Fetch) returns (o: Refreshed)
    modifies d`status
    ensures o == AvailableRefresh(f)
    ensures d.status == if f.Fetched? then f.fip.status else old(d.status)
  {
    if f.FetchFailed? {
      return Refreshed("", true);
    }
    var status := f.fip.status;
    d.status := status;
    if status == Available || status == Failed {
      return Refreshed(status, false);
    }
    return Refreshed(PendingLabel, false);
  }

  /** The status of the last successful fetch among `fetches`, or `initial`
      when none succeeded. */
  function LastStatus(fetches: seq<Fetch>, initial: string): string
    decreases |fetches|
  {
    if |fetches| == 0 then initial
    else if fetches[|fetches| - 1].Fetched? then fetches[|fetches| - 1].fip.status
    else LastStatus(fetches[..|fetches| - 1], initial)
  }

  /** A fetch extends the status history: a found attachment sets the
      status, a failed fetch leaves it. */
  lemma LastStatusStep(fetches: seq<Fetch>, i: nat, initial: string)
    requires i < |fetches|
    ensures LastStatus(fetches[..i + 1], initial)
         == if fetches[i].Fetched? then fetches[i].fip.status else LastStatus(fetches[..i], initial)
  {
    assert fetches[..i + 1][..i] == fetches[..i];
  }

  /** The status attribute the availability wait leaves, by outcome: the
      label reached; the status of the last poll on a timeout; on a failed
      refresh, the status of the poll before it, or the initial status when
      the first poll fails. */
  lemma AvailableWaitStatus(fetches: seq<Fetch>, initial: string)
    ensures var obs := AvailableObservations(fetches);
      var r := WaitForState(AvailableWait, obs);
      var k := Polls(AvailableWait, obs);
      var status := LastStatus(fetches[..k], initial);
      && (r.Reached? ==> status == r.state)
      && (r.TimedOut? && |fetches| > 0 ==> status == fetches[|fetches| - 1].fip.status)
      && (r.RefreshFailed? ==> status == if k >= 2 then fetches[k - 2].fip.status else initial)
      && (|fetches| == 0 ==> status == initial)
  {
    var obs := AvailableObservations(fetches);
    var r := WaitForState(AvailableWait, obs);
    var k := Polls(AvailableWait, obs);
    WaitTimesOut(AvailableWait, obs);
    if r.TimedOut? {
      if |fetches| > 0 {
        LastStatusStep(fetches, |fetches| - 1, initial);
        assert fetches[..|fetches|] == fetches;
      }
    } else {
      assert 0 < k && !Waiting(AvailableWait, obs[k - 1]);
      WaitDecidedAt(AvailableWait, obs, k - 1);
      LastStatusStep(fetches, k - 1, initial);
      if k >= 2 {
        LastStatusStep(fetches, k - 2, initial);
      }
    }
  }

  /** isWaitForBareMetalServerNetworkInterfaceFloatingIpAvailable over the
      fetch outcomes observed before the timeout: the wait's outcome, and the
      status attribute left by the refreshes it made. */
  method WaitAvailable(d: FipResourceData, fetches: seq<Fetch>) returns (r: WaitResult)
    modifies d`status
    ensures r == WaitForState(AvailableWait, AvailableObservations(fetches))
    ensures d.status == LastStatus(fetches[..Polls(AvailableWait, AvailableObservations(fetches))], old(d.status))
    ensures r.Reached? ==> d.status == r.state
    ensures r.TimedOut? && |fetches| > 0 ==> d.status == fetches[|fetches| - 1].fip.status
    ensures r.RefreshFailed? ==>
      var k := Polls(AvailableWait, AvailableObservations(fetches));
      d.status == if k >= 2 then fetches[k - 2].fip.status else old(d.status)
    ensures |fetches| == 0 ==> d.status == old(d.status)
  {
    ghost var obs := AvailableObservations(fetches);
    ghost var initial := d.status;
    var i := 0;
    while i < |fetches|
      invariant 0 <= i <= |fetches|
      invariant forall j :: 0 <= j < i ==> Waiting(AvailableWait, obs[j])
      invariant d.status == LastStatus(fetches[..i], initial)
    {
      LastStatusStep(fetches, i, initial);
      var o := RefreshAvailable(d, fetches[i]);
      assert obs[i] == o;
      if !Waiting(AvailableWait, o) {
        WaitDecidedAt(AvailableWait, obs, i);
        AvailableWaitStatus(fetches, initial);
        return Decide(AvailableWait, o);
      }
      i := i + 1;
    }
    WaitTimesOut(AvailableWait, obs);
    AvailableWaitStatus(fetches, initial);
    return TimedOut;
  }

  // ------------------------------------------------------------ handlers

  datatype FipError =
    | BadId(idError: IdError)
    | Remote(apiError: ApiError)
    | WaitEnded(result: WaitResult)

  /** The remote calls a handler issues, in order. */
  datatype FipCall = GetCall(ids: FipIds) | RemoveCall(ids: FipIds) | PollCall(ids: FipIds)

  /** The read handler: parse the id, fetch the attachment, and on success
      copy it into the state, rebuilding the id from the fetched floating IP. */
  method ReadAttachment(d: FipResourceData, lookup: FipIds -> Fetch) returns (r: Outcome<FipError>)
    modifies d
    ensures r.Fail? ==>
      && d.id == old(d.id) && d.name == old(d.name) && d.address == old(d.address)
      && d.status == old(d.status) && d.zone == old(d.zone) && d.crn == old(d.crn)
      && d.target == old(d.target)
    ensures ParseNicFipId(old(d.id)).Err? ==> r == Fail(BadId(ParseNicFipId(old(d.id)).error))
    ensures ParseNicFipId(old(d.id)).Ok? ==>
      var ids := ParseNicFipId(old(d.id)).value;
      match lookup(ids)
      case FetchFailed(e) =>
        if IsNotFound(e) then
          && r.Pass? && d.id == ""
          && d.name == old(d.name) && d.address == old(d.address) && d.status == old(d.status)
          && d.zone == old(d.zone) && d.crn == old(d.crn) && d.target == old(d.target)
        else r == Fail(Remote(e))
      case Fetched(fip) =>
        && r.Pass?
        && d.id == MakeNicFipId(ids.server, ids.nic, fip.id)
        && d.status == fip.status && d.name == fip.name && d.address == fip.address
        && d.zone == fip.zone && d.crn == fip.crn
        && d.target == (if fip.target.Some? then fip.target.value else old(d.target))
        && (fip.id == ids.fip ==> d.id == old(d.id))
  {
    var parsed := ParseNicFipId(d.id);
    if parsed.Err? {
      return Fail(BadId(parsed.error));
    }
    var ids := parsed.value;
    var f := lookup(ids);
    if f.FetchFailed? {
      if IsNotFound(f.error) {
        d.id := "";
        return Pass;
      }
      return Fail(Remote(f.error));
    }
    ParseThenMake(d.id);
    CopyAttachment(d, f.fip, ids.server, ids.nic);
    return Pass;
  }

  /** bareMetalServerNICFipGet: the id is rebuilt from the server, NIC and
      fetched floating-IP ids; the attributes are copied. */
  method CopyAttachment(d: FipResourceData, fip: FloatingIp, server: string, nic: string)
    modifies d
    ensures d.id == MakeNicFipId(server, nic, fip.id)
    ensures d.name == fip.name && d.address == fip.address && d.status == fip.status
    ensures d.zone == fip.zone && d.crn == fip.crn
    ensures d.target == if fip.target.Some? then fip.target.value else old(d.target)
  {
    d.id := MakeNicFipId(server, nic, fip.id);
    d.name := fip.name;
    d.address := fip.address;
    d.status := fip.status;
    d.zone := fip.zone;
    d.crn := fip.crn;
    if fip.target.Some? {
      d.target := fip.target.value;
    }
  }

  /** The delete handler with bareMetalServerNetworkInterfaceFipDelete:
      parse the id; a 404 on the pre-check GET ends successfully without a
      remove; otherwise remove, wait for the deletion, and clear the id only
      once the wait has succeeded. */
  method DeleteAttachment(d: FipResourceData, lookup: FipIds -> Fetch, remove: FipIds -> Option<ApiError>,
                          polls: seq<Fetch>)
    returns (r: Outcome<FipError>, calls: seq<FipCall>)
    modifies d`id
    ensures r.Fail? ==> d.id == old(d.id)
    ensures r.Pass? && d.id != old(d.id) ==> d.id == ""
    ensures ParseNicFipId(old(d.id)).Err? ==> r == Fail(BadId(ParseNicFipId(old(d.id)).error)) && calls == []
    ensures ParseNicFipId(old(d.id)).Ok? ==>
      var ids := ParseNicFipId(old(d.id)).value;
      var w := WaitForState(DeleteWait, DeleteObservations(polls));
      match lookup(ids)
      case FetchFailed(e) =>
        && calls == [GetCall(ids)]
        && d.id == old(d.id)
        && (r.Pass? <==> IsNotFound(e))
      case Fetched(_) =>
        && |calls| >= 2 && calls[..2] == [GetCall(ids), RemoveCall(ids)]
        && (remove(ids).Some? ==> r == Fail(Remote(remove(ids).value)) && |calls| == 2)
        && (remove(ids).None? ==>
              && |calls| == 2 + Polls(DeleteWait, DeleteObservations(polls))
              && (forall i :: 2 <= i < |calls| ==> calls[i] == PollCall(ids))
              && (r.Pass? <==> w == Reached(Deleted))
              && (r.Pass? ==> d.id == ""))
  {
    calls := [];
    var parsed := ParseNicFipId(d.id);
    if parsed.Err? {
      return Fail(BadId(parsed.error)), calls;
    }
    var ids := parsed.value;
    var f := lookup(ids);
    calls := calls + [GetCall(ids)];
    if f.FetchFailed? {
      if IsNotFound(f.error) {
        return Pass, calls;
      }
      return Fail(Remote(f.error)), calls;
    }
    var removed := remove(ids);
    calls := calls + [RemoveCall(ids)];
    if removed.Some? {
      return Fail(Remote(removed.value)), calls;
    }
    var obs := DeleteObservations(polls);
    var w := WaitForState(DeleteWait, obs);
    var n := Polls(DeleteWait, obs);
    calls := calls + seq(n, _ => PollCall(ids));
    DeleteWaitOutcome(polls);
    if w.RefreshFailed? || w.UnexpectedState? || w.TimedOut? {
      return Fail(WaitEnded(w)), calls;
    }
    d.id := "";
    return Pass, calls;
  }
}
