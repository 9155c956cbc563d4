/** The job table of the HTTP server: submission (`/start_job`), the
    background completion (`processJob`), the timed deletion of completed
    jobs, and the three queries (`/status/:jobId`, `/result/:jobId`,
    `/availability`).  Ids, clocks and timers are outside the model: a
    fresh id is a precondition and the deletion is an explicit step. */
module Jobs {
  import opened Wrappers
  import opened Registry
  import opened Payment

  /** A table entry.  A terminal write replaces the whole record, so the
      input survives only while the job is processing. */
  datatype Job =
    | Processing(input: string)
    | Completed(result: PaymentRequest)
    | Failed(error: string)

  type Table = map<string, Job>

  function StatusName(j: Job): string {
    match j
    case Processing(_) => "processing"
    case Completed(_) => "completed"
    case Failed(_) => "failed"
  }

  /** The JSON bodies the job routes send. */
  datatype Body =
    | ErrorBody(error: string)
    | Started(jobId: string, status: string)
    | StatusBody(status: string, jobError: Option<string>)
    | Pending(status: string)
    | ResultBody(result: PaymentRequest)
    | Capacity(available: bool, currentJobs: nat, maxJobs: nat)

  datatype Reply = Reply(code: nat, body: Body)

  const InputRequired: string := "Input is required"
  const JobNotFound: string := "Job not found"

  /** `/start_job` with the id `crypto.randomUUID` produced.  A missing
      input (`None`) and the empty string are falsy and refused; any other
      input is stored as a processing job.  The capacity is not consulted. */
  function StartJob(t: Table, id: string, input: Option<string>): (res: (Table, Reply))
    requires id !in t
    ensures input.None? || input == Some("") ==> res.0 == t && res.1.code == 400
    ensures input.Some? && input.value != "" ==>
      && res.0.Keys == t.Keys + {id} && |res.0| == |t| + 1
      && res.0[id] == Processing(input.value)
      && (forall k :: k in t ==> res.0[k] == t[k])
      && res.1 == Reply(200, Started(id, "processing"))
  {
    if input.None? || input.value == "" then (t, Reply(400, ErrorBody(InputRequired)))
    else (t[id := Processing(input.value)], Reply(200, Started(id, "processing")))
  }

  /** `processJob(jobId, input)` once the service has answered: the entry
      becomes completed with the result, or failed with the message. */
  function Finish(svc: Service, t: Table, id: string): (t': Table)
    requires HasAllChains(svc.chains)
    requires id in t && t[id].Processing?
    ensures t'.Keys == t.Keys
    ensures forall k :: k in t && k != id ==> t'[k] == t[k]
    ensures !t'[id].Processing?
    ensures t'[id].Completed? <==> ProcessInput(svc, t[id].input).Ok?
    ensures t'[id].Failed? ==> ProcessingFailed <= t'[id].error
  {
    var out := ProcessInput(svc, t[id].input);
    t[id := if out.Ok? then Completed(out.value) else Failed(out.message)]
  }

  /** The `setTimeout` that deletes a job: only completed jobs have one. */
  function Expire(t: Table, id: string): (t': Table)
    requires id in t && t[id].Completed?
    ensures t'.Keys == t.Keys - {id}
    ensures forall k :: k in t' ==> t'[k] == t[k]
  {
    t - {id}
  }

  /** `/status/:jobId` */
  function StatusPoll(t: Table, id: string): (r: Reply)
    ensures id !in t <==> r.code == 404
    ensures id !in t ==> r.body == ErrorBody(JobNotFound)
    ensures id in t ==> r.code == 200 && r.body.StatusBody? && r.body.status == StatusName(t[id])
    ensures id in t ==> (r.body.jobError.Some? <==> t[id].Failed?)
  {
    if id !in t then Reply(404, ErrorBody(JobNotFound))
    else
      match t[id]
      case Failed(e) => Reply(200, StatusBody("failed", Some(e)))
      case _ => Reply(200, StatusBody(StatusName(t[id]), None))
  }

  /** `/result/:jobId` */
  function ResultPoll(t: Table, id: string): (r: Reply)
    ensures r.code == 404 <==> id !in t
    ensures r.code == 202 <==> id in t && t[id].Processing?
    ensures r.code == 500 <==> id in t && t[id].Failed?
    ensures r.code == 200 <==> id in t && t[id].Completed?
    ensures r.code == 500 ==> r.body == ErrorBody(t[id].error)
    ensures r.code == 200 ==> r.body == ResultBody(t[id].result)
  {
    if id !in t then Reply(404, ErrorBody(JobNotFound))
    else
      match t[id]
      case Processing(_) => Reply(202, Pending("processing"))
      case Failed(e) => Reply(500, ErrorBody(e))
      case Completed(pay) => Reply(200, ResultBody(pay))
  }

  /** `/availability` with the ceiling `maxJobs`. */
  function Availability(t: Table, maxJobs: nat): (r: Reply)
    ensures r.code == 200 && r.body.Capacity?
    ensures r.body.available <==> |t| < maxJobs
    ensures r.body.currentJobs == |t| && r.body.maxJobs == maxJobs
  {
    Reply(200, Capacity(|t| < maxJobs, |t|, maxJobs))
  }

  /** The two polling routes agree: the result route answers 202, 500 or
      200 exactly when the status route reports `processing`, `failed` or
      `completed`, and both carry the same failure message. */
  lemma PollsAgree(t: Table, id: string)
    ensures StatusPoll(t, id).code == 404 <==> ResultPoll(t, id).code == 404
    ensures id in t ==>
      var st := StatusPoll(t, id).body.status;
      && (ResultPoll(t, id).code == 202 <==> st == "processing")
      && (ResultPoll(t, id).code == 500 <==> st == "failed")
      && (ResultPoll(t, id).code == 200 <==> st == "completed")
    ensures ResultPoll(t, id).code == 500 ==>
      StatusPoll(t, id).body.jobError == Some(ResultPoll(t, id).body.error)
  {
  }

  /** Once `processJob` has finished, the result route hands out the
      service's payment request, or answers 500 with its error message. */
  lemma FinishedPolls(svc: Service, t: Table, id: string)
    requires HasAllChains(svc.chains)
    requires id in t && t[id].Processing?
    ensures var out := ProcessInput(svc, t[id].input);
      var t' := Finish(svc, t, id);
      && (out.Ok? ==> ResultPoll(t', id) == Reply(200, ResultBody(out.value)))
      && (out.Err? ==> ResultPoll(t', id) == Reply(500, ErrorBody(out.message))
                       && StatusPoll(t', id) == Reply(200, StatusBody("failed", Some(out.message))))
  {
  }

  /** Submitting past the ceiling still succeeds: `/start_job` never asks
      `/availability`. */
  lemma SubmitIgnoresCapacity(t: Table, id: string, input: string, maxJobs: nat)
    requires id !in t && input != ""
    requires !Availability(t, maxJobs).body.available
    ensures var (t', reply) := StartJob(t, id, Some(input));
      && reply.code == 200 && id in t' && |t'| == |t| + 1
      && !Availability(t', maxJobs).body.available
  {
  }

  // ---------------------------------------------------------------------
  // Runs of the table

  /** One change of the table: a submission with its fresh id, the
      completion of a job (`Finish`), or its timed deletion (`Expire`). */
  datatype Step =
    | Submit(id: string, input: Option<string>)
    | Complete(id: string)
    | Delete(id: string)

  /** The table after a step, or `None` when the step cannot happen there
      (a reused id, or a completion or deletion of a job in the wrong
      state). */
  function Apply(svc: Service, t: Table, s: Step): Option<Table>
    requires HasAllChains(svc.chains)
  {
    match s
    case Submit(id, input) => if id in t then None else Some(StartJob(t, id, input).0)
    case Complete(id) => if id in t && t[id].Processing? then Some(Finish(svc, t, id)) else None
    case Delete(id) => if id in t && t[id].Completed? then Some(Expire(t, id)) else None
  }

  function RunSteps(svc: Service, t: Table, steps: seq<Step>): Option<Table>
    requires HasAllChains(svc.chains)
    decreases |steps|
  {
    if steps == [] then Some(t)
    else
      match Apply(svc, t, steps[0])
      case None => None
      case Some(t') => RunSteps(svc, t', steps[1..])
  }

  /** A step leaves a failed entry as it is. */
  lemma StepKeepsFailed(svc: Service, t: Table, s: Step, id: string)
    requires HasAllChains(svc.chains)
    requires id in t && t[id].Failed? && Apply(svc, t, s).Some?
    ensures id in Apply(svc, t, s).value && Apply(svc, t, s).value[id] == t[id]
  {
  }

  /** A failed job is never removed nor changed, whatever happens next. */
  lemma {:induction false} FailedPersists(svc: Service, t: Table, steps: seq<Step>, id: string)
    requires HasAllChains(svc.chains)
    requires id in t && t[id].Failed? && RunSteps(svc, t, steps).Some?
    ensures id in RunSteps(svc, t, steps).value
    ensures RunSteps(svc, t, steps).value[id] == t[id]
    decreases |steps|
  {
    if steps != [] {
      StepKeepsFailed(svc, t, steps[0], id);
      FailedPersists(svc, Apply(svc, t, steps[0]).value, steps[1..], id);
    }
  }

  /** A step removes an entry only when the entry is completed, and the
      only entry it may add is a processing one. */
  lemma StepChanges(svc: Service, t: Table, s: Step)
    requires HasAllChains(svc.chains) && Apply(svc, t, s).Some?
    ensures forall k :: k in t && k !in Apply(svc, t, s).value ==> t[k].Completed?
    ensures forall k :: k in Apply(svc, t, s).value && k !in t ==>
      Apply(svc, t, s).value[k].Processing?
  {
  }

  /** Over a run, an entry that disappears was completed when it was
      deleted; in particular an entry that never completes is never
      deleted. */
  lemma {:induction false} OnlyCompletedRemoved(svc: Service, t: Table, steps: seq<Step>, id: string)
    requires HasAllChains(svc.chains)
    requires id in t && !t[id].Completed? && RunSteps(svc, t, steps).Some?
    requires id !in RunSteps(svc, t, steps).value
    ensures exists n :: 0 <= n < |steps| && steps[n] == Complete(id)
    decreases |steps|
  {
    var t' := Apply(svc, t, steps[0]).value;
    StepChanges(svc, t, steps[0]);
    if steps[0] == Complete(id) {
    } else {
      assert id in t' && t'[id] == t[id];
      OnlyCompletedRemoved(svc, t', steps[1..], id);
      var n :| 0 <= n < |steps| - 1 && steps[1..][n] == Complete(id);
      assert steps[n + 1] == Complete(id);
    }
  }
}
