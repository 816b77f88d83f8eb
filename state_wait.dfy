/** The provider waits for asynchronous state changes with the plugin SDK's
    `resource.StateChangeConf.WaitForState`, which calls a refresh function
    repeatedly and classifies the state label each call returns. The SDK's
    loop is not part of this model's source; it is modelled abstractly over
    the finite sequence of refresh results observed before the timeout
    expires: the timeout is "the sequence ran out". */
module StateWait {

  /** What one refresh returned: a state label and whether it also returned an error. */
  datatype Refreshed = Refreshed(state: string, failed: bool)

  /** The Pending and Target label lists of a wait, with its fixed delays. */
  datatype WaitConfig = WaitConfig(
    pending: seq<string>,
    target: seq<string>,
    delaySeconds: nat,
    minTimeoutSeconds: nat)

  datatype WaitResult =
    | Reached(state: string)            // a target label was observed
    | RefreshFailed                     // the refresh returned an error
    | UnexpectedState(state: string)    // a label in neither list
    | TimedOut                          // only pending labels until the budget ran out

  /** One refresh result keeps the wait going: no error, not a target label,
      and a pending label (any label when the pending list is empty). */
  predicate Waiting(conf: WaitConfig, o: Refreshed)
  {
    !o.failed && o.state !in conf.target && (|conf.pending| == 0 || o.state in conf.pending)
  }

  /** How a refresh result that stops the wait ends it. */
  function Decide(conf: WaitConfig, o: Refreshed): (r: WaitResult)
    requires !Waiting(conf, o)
    ensures r != TimedOut
  {
    if o.failed then RefreshFailed
    else if o.state in conf.target then Reached(o.state)
    else UnexpectedState(o.state)
  }

  /** WaitForState over the observed refresh results, in order. */
  function WaitForState(conf: WaitConfig, obs: seq<Refreshed>): (r: WaitResult)
    ensures r.Reached? ==> r.state in conf.target
    ensures r.UnexpectedState? ==> r.state !in conf.target && r.state !in conf.pending
    ensures r.TimedOut? ==> forall i :: 0 <= i < |obs| ==> Waiting(conf, obs[i])
    decreases |obs|
  {
    if |obs| == 0 then TimedOut
    else if !Waiting(conf, obs[0]) then Decide(conf, obs[0])
    else WaitForState(conf, obs[1..])
  }

  /** Number of refresh calls the wait makes before it returns. */
  function Polls(conf: WaitConfig, obs: seq<Refreshed>): (k: nat)
    ensures k <= |obs|
    ensures forall j :: 0 <= j < k - 1 ==> Waiting(conf, obs[j])
    ensures k < |obs| ==> k > 0 && !Waiting(conf, obs[k - 1])
    decreases |obs|
  {
    if |obs| == 0 then 0
    else if !Waiting(conf, obs[0]) then 1
    else 1 + Polls(conf, obs[1..])
  }

  /** The wait is decided by the first observation that does not keep it
      going: every observation before it is pending, and the rest are never
      looked at. */
  lemma {:induction false} WaitDecidedAt(conf: WaitConfig, obs: seq<Refreshed>, k: nat)
    requires k < |obs|
    requires forall j :: 0 <= j < k ==> Waiting(conf, obs[j])
    requires !Waiting(conf, obs[k])
    ensures WaitForState(conf, obs) == Decide(conf, obs[k])
    ensures Polls(conf, obs) == k + 1
    decreases k
  {
    if k > 0 {
      WaitDecidedAt(conf, obs[1..], k - 1);
    }
  }

  /** Only a run of pending observations times out: a timeout is never a
      silent success, and a sequence that never leaves the pending labels
      never reports one. */
  lemma {:induction false} WaitTimesOut(conf: WaitConfig, obs: seq<Refreshed>)
    ensures WaitForState(conf, obs) == TimedOut
        <==> forall i :: 0 <= i < |obs| ==> Waiting(conf, obs[i])
    ensures WaitForState(conf, obs) == TimedOut ==> Polls(conf, obs) == |obs|
    decreases |obs|
  {
    if |obs| > 0 {
      WaitTimesOut(conf, obs[1..]);
      assert forall i :: 1 <= i < |obs| ==> obs[i] == obs[1..][i - 1];
    }
  }

  /** Observations beyond the deciding one change nothing. */
  lemma {:induction false} WaitIgnoresLater(conf: WaitConfig, obs: seq<Refreshed>, more: seq<Refreshed>)
    requires WaitForState(conf, obs) != TimedOut
    ensures WaitForState(conf, obs + more) == WaitForState(conf, obs)
    ensures Polls(conf, obs + more) == Polls(conf, obs)
    decreases |obs|
  {
    assert (obs + more)[0] == obs[0];
    if Waiting(conf, obs[0]) {
      assert (obs + more)[1..] == obs[1..] + more;
      WaitIgnoresLater(conf, obs[1..], more);
    }
  }

  /** An unexpected label is one that some observation actually carried. */
  lemma {:induction false} UnexpectedWitness(conf: WaitConfig, obs: seq<Refreshed>) returns (i: nat)
    requires WaitForState(conf, obs).UnexpectedState?
    ensures i < |obs| && !obs[i].failed && obs[i].state == WaitForState(conf, obs).state
    ensures !Waiting(conf, obs[i])
    decreases |obs|
  {
    if Waiting(conf, obs[0]) {
      var k := UnexpectedWitness(conf, obs[1..]);
      i := k + 1;
    } else {
      i := 0;
    }
  }
}
