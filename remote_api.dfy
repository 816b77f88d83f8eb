/** What the cloud API answers besides data: HTTP errors (404 being the
    recognised "resource absent" signal) and transient failures, which the
    remote models draw from a fault schedule. */
module RemoteApi {

  /** An error returned by an SDK call. */
  datatype ApiError =
    | HttpError(status: int)   // the call got a response carrying this status code
    | Unavailable              // a transient failure (transport, throttling, 5xx, ...)

  const NotFoundStatus: int := 404
  const BadRequestStatus: int := 400

  /** `err != nil && response != nil && response.StatusCode == 404` */
  predicate IsNotFound(e: ApiError)
  {
    e.HttpError? && e.status == NotFoundStatus
  }

  /** The remote models number their calls from 0; a call whose number is in
      `faults` is answered with `Unavailable`. FirstFault is the offset, within
      the window of `len` calls starting at call `from`, of the first faulty
      call, or `len` when the whole window is fault free. */
  function FirstFault(faults: set<nat>, from: nat, len: nat): (k: nat)
    ensures k <= len
    ensures k < len ==> from + k in faults
    decreases len
  {
    if len == 0 then 0
    else if from in faults then 0
    else 1 + FirstFault(faults, from + 1, len - 1)
  }

  /** Every call before the first fault succeeds. */
  lemma {:induction false} FirstFaultClean(faults: set<nat>, from: nat, len: nat, j: nat)
    requires from <= j < from + FirstFault(faults, from, len)
    ensures j !in faults
    decreases len
  {
    if j > from {
      FirstFaultClean(faults, from + 1, len - 1, j);
    }
  }

  /** A window of calls is two windows in a row: the first fault of the
      whole is the first fault of the front part, or, when the front part is
      clean, its length plus the first fault of the rest. */
  lemma {:induction false} FirstFaultSplit(faults: set<nat>, from: nat, a: nat, b: nat)
    ensures FirstFault(faults, from, a + b)
         == if FirstFault(faults, from, a) < a then FirstFault(faults, from, a)
            else a + FirstFault(faults, from + a, b)
    decreases a
  {
    if a > 0 && from !in faults {
      FirstFaultSplit(faults, from + 1, a - 1, b);
      assert a - 1 + b == a + b - 1;
    }
  }

  /** One more call on a clean window: either it is the first fault of the
      whole window, or the clean window grows by one. */
  lemma FirstFaultStep(faults: set<nat>, from: nat, i: nat, len: nat)
    requires i < len && FirstFault(faults, from, i) == i
    ensures from + i in faults ==> FirstFault(faults, from, len) == i
    ensures from + i !in faults ==> FirstFault(faults, from, i + 1) == i + 1
  {
    FirstFaultSplit(faults, from, i, len - i);
    FirstFaultSplit(faults, from, i, 1);
  }

  /** A window is fault-free exactly when both of its parts are. */
  lemma CleanSplit(faults: set<nat>, from: nat, a: nat, b: nat)
    ensures FirstFault(faults, from, a + b) == a + b
        <==> FirstFault(faults, from, a) == a && FirstFault(faults, from + a, b) == b
  {
    FirstFaultSplit(faults, from, a, b);
  }
}
