/**
  The job submitted to the backend and the loop that waits for it: poll the
  status once per round, print the round counter from 0, stop at the first
  final status, abort with the backend's message on ERROR and otherwise
  fetch the result once.
*/
module Jobs {
  import opened Results

  /** The statuses a job reports. */
  datatype JobStatus = Initializing | Queued | Validating | Running | Cancelled | Done | Error

  /** A measurement histogram in the order its entries are iterated: (key, count). */
  type Histogram = seq<(string, nat)>

  /**
    A submitted job, seen through the three calls the search makes on it.
    `statuses` is what successive `status()` calls report; the backend owns
    these transitions.
  */
  class Job {
    const statuses: seq<JobStatus>
    const errorMessage: string
    const counts: Histogram
    var polls: nat
    var fetches: nat

    constructor (statuses: seq<JobStatus>, errorMessage: string, counts: Histogram)
      ensures this.statuses == statuses && this.errorMessage == errorMessage && this.counts == counts
      ensures polls == 0 && fetches == 0
    {
      this.statuses := statuses;
      this.errorMessage := errorMessage;
      this.counts := counts;
      polls := 0;
      fetches := 0;
    }

    /** `job.status()` */
    method Status() returns (s: JobStatus)
      requires polls < |statuses|
      modifies this
      ensures s == statuses[old(polls)]
      ensures polls == old(polls) + 1 && fetches == old(fetches)
    {
      s := statuses[polls];
      polls := polls + 1;
    }

    /** `job.error_message()` */
    method ErrorMessage() returns (m: string)
      ensures m == errorMessage
    {
      m := errorMessage;
    }

    /** `job.result().get_counts(circuit)` */
    method Result() returns (h: Histogram)
      modifies this
      ensures h == counts
      ensures fetches == old(fetches) + 1 && polls == old(polls)
    {
      h := counts;
      fetches := fetches + 1;
    }
  }

  /** Poll `i` is the first whose status is final. */
  ghost predicate IsFirstFinal(statuses: seq<JobStatus>, finals: set<JobStatus>, i: int) {
    && 0 <= i < |statuses|
    && statuses[i] in finals
    && forall j :: 0 <= j < i ==> statuses[j] !in finals
  }

  ghost predicate EventuallyFinal(statuses: seq<JobStatus>, finals: set<JobStatus>) {
    exists i :: 0 <= i < |statuses| && statuses[i] in finals
  }

  /**
    The wait loop and the fetch after it. `finals` is the backend library's
    set of final statuses. Returns the histogram, or the backend's error
    message when the first final status is ERROR, together with the lines
    `(i) status` the loop prints.
  */
  method WaitForResult(job: Job, finals: set<JobStatus>) returns (r: Result<Histogram, string>, log: seq<(nat, JobStatus)>)
    requires job.polls == 0 && job.fetches == 0
    requires EventuallyFinal(job.statuses, finals)
    modifies job
    ensures IsFirstFinal(job.statuses, finals, job.polls - 1)
    ensures |log| == job.polls && forall j :: 0 <= j < |log| ==> log[j] == (j, job.statuses[j])
    ensures job.statuses[job.polls - 1] == Error ==> r == Err(job.errorMessage) && job.fetches == 0
    ensures job.statuses[job.polls - 1] != Error ==> r == Ok(job.counts) && job.fetches == 1
  {
    var i := 0;
    log := [];
    var status;
    while true
      invariant i == job.polls == |log| <= |job.statuses|
      invariant job.fetches == 0
      invariant forall j :: 0 <= j < i ==> job.statuses[j] !in finals
      invariant forall j :: 0 <= j < |log| ==> log[j] == (j, job.statuses[j])
      decreases |job.statuses| - i
    {
      status := job.Status();
      log := log + [(i, status)];
      i := i + 1;
      if status in finals {
        if status == Error {
          var message := job.ErrorMessage();
          r := Err(message);
          return;
        } else {
          break;
        }
      }
    }
    var counts := job.Result();
    r := Ok(counts);
  }
}
