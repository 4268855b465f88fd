/** The job store of the shell (src/jobs_control.c): jobs made of pipeline
    processes, the per-process state machine driven by wait statuses, the
    roll-up of process states into a job status, and the ordered job list. */
module JobsControl {
  import opened Defs
  import opened CommandParser

  /** Process and job states (include/jobs_control.h:18,31 — the code uses one
      set of names for both). */
  datatype State = Ready | Running | Stopped | Completed | Signaled

  /** IS_JOB_ENDED. */
  predicate Ended(s: State) { s == Completed || s == Signaled }

  /** What waitpid reports about a child: continued, stopped by a signal,
      exited with a code, or killed by a signal. */
  datatype WaitStatus = WContinued | WStopped(sig: int) | WExited(code: int) | WSignaled(sig: int)

  /** The number a status carries (WSTOPSIG, WEXITSTATUS or WTERMSIG). */
  function Payload(w: WaitStatus): int
  {
    match w
    case WContinued => 0
    case WStopped(sig) => sig
    case WExited(code) => code
    case WSignaled(sig) => sig
  }

  /** One process of a pipeline (struct T_Process); `numJob` tells the
      replicas of a round-robin job apart. */
  datatype Proc = Proc(args: seq<string>, argc: int, pid: int, state: State, info: int, numJob: int)

  /** NORMAL_JOB or RR_JOB. */
  datatype JobKind = NormalJob | RrJob

  /** next_proc_state (src/jobs_control.c:228-252). */
  function NextProcState(p: Proc, w: WaitStatus): (q: Proc)
    // only the state and the info of the process change
    ensures q == p.(state := q.state, info := q.info)
    // an ended process never changes again
    ensures Ended(p.state) ==> q == p
    // a process never goes back to Ready
    ensures q.state != Ready
    // info changes only together with the state, to the number the status carries
    ensures q.info != p.info ==> q.state != p.state && q.info == Payload(w)
    // the transitions: a Ready process starts running on any notification,
    ensures p.state == Ready ==> q == p.(state := Running)
    // a stopped one runs again when continued,
    ensures p.state == Stopped && w.WContinued? ==> q == p.(state := Running)
    // a running one stops, keeping the stop signal,
    ensures p.state == Running && w.WStopped? ==> q == p.(state := Stopped, info := w.sig)
    // a live one completes with its exit code or is killed by a signal,
    ensures (p.state == Running || p.state == Stopped) && w.WExited? ==> q == p.(state := Completed, info := w.code)
    ensures (p.state == Running || p.state == Stopped) && w.WSignaled? ==> q == p.(state := Signaled, info := w.sig)
    // and every other notification leaves it as it is
    ensures p.state == Running && w.WContinued? ==> q == p
    ensures p.state == Stopped && w.WStopped? ==> q == p
  {
    if p.state == Ready then p.(state := Running)
    else if p.state == Stopped && w.WContinued? then p.(state := Running)
    else if p.state == Running && w.WStopped? then p.(state := Stopped, info := w.sig)
    else if (p.state == Stopped || p.state == Running) && w.WExited? then p.(state := Completed, info := w.code)
    else if (p.state == Stopped || p.state == Running) && w.WSignaled? then p.(state := Signaled, info := w.sig)
    else p
  }

  /** Stopping a running process and continuing it gives it back, with the
      stop signal recorded in info. */
  lemma StopThenContinue(p: Proc, sig: int)
    requires p.state == Running
    ensures NextProcState(NextProcState(p, WStopped(sig)), WContinued) == p.(info := sig)
  {
  }

  /** Whatever the first notification, an exit or a kill notification after
      it leaves the process ended, holding the exit code or the signal. */
  lemma EndsAfterTermination(p: Proc, w: WaitStatus, t: WaitStatus)
    requires t.WExited? || t.WSignaled?
    ensures var q := NextProcState(NextProcState(p, w), t);
      Ended(q.state) && (Ended(NextProcState(p, w).state) || q.info == Payload(t))
  {
  }

  /** The index of the first process with the given pid, or -1. */
  function FirstPid(ps: seq<Proc>, pid: int): (k: int)
    ensures -1 <= k < |ps|
    ensures k >= 0 ==> ps[k].pid == pid && forall j :: 0 <= j < k ==> ps[j].pid != pid
    ensures k < 0 <==> forall j :: 0 <= j < |ps| ==> ps[j].pid != pid
  {
    if ps == [] then -1
    else if ps[0].pid == pid then 0
    else
      var k := FirstPid(ps[1..], pid);
      if k < 0 then -1 else k + 1
  }

  /** mark_process on the process list, as a value: the first process with
      that pid takes its next state, and every other process (all of them
      when no pid matches) is unchanged. */
  function Marked(ps: seq<Proc>, w: WaitStatus, pid: int): (qs: seq<Proc>)
    ensures |qs| == |ps| && forall i :: 0 <= i < |ps| ==> qs[i].pid == ps[i].pid
    ensures forall i :: 0 <= i < |ps| && ps[i].pid != pid ==> qs[i] == ps[i]
    ensures forall i :: 0 <= i < |ps| && ps[i].pid == pid ==>
      qs[i] == if forall j :: 0 <= j < i ==> ps[j].pid != pid then NextProcState(ps[i], w) else ps[i]
  {
    var k := FirstPid(ps, pid);
    if k < 0 then ps else ps[k := NextProcState(ps[k], w)]
  }

  /** The process `p` is counted when asking about replica n (-1: all of them). */
  predicate Selected(p: Proc, n: int) { p.numJob == n || n == -1 }

  /** is_job_n_running (src/jobs_control.c:167-180). */
  function IsJobNRunning(ps: seq<Proc>, n: int): (r: bool)
    ensures r <==> exists i :: 0 <= i < |ps| && Selected(ps[i], n) && ps[i].state == Running
  {
    if ps == [] then false
    else if Selected(ps[0], n) && ps[0].state == Running then true
    else
      var r := IsJobNRunning(ps[1..], n);
      assert r ==> exists i :: 1 <= i < |ps| && Selected(ps[i], n) && ps[i].state == Running;
      r
  }

  /** How many selected processes are in state s. */
  function CountState(ps: seq<Proc>, n: int, s: State): (c: nat)
    ensures c > 0 <==> exists i :: 0 <= i < |ps| && Selected(ps[i], n) && ps[i].state == s
  {
    if ps == [] then 0
    else
      var c := CountState(ps[1..], n, s);
      assert c > 0 ==> exists i :: 1 <= i < |ps| && Selected(ps[i], n) && ps[i].state == s;
      (if Selected(ps[0], n) && ps[0].state == s then 1 else 0) + c
  }

  /** is_job_n_stopped (src/jobs_control.c:206-225): some selected process is
      stopped and none is running. */
  function IsJobNStopped(ps: seq<Proc>, n: int): (r: bool)
    ensures r <==> (exists i :: 0 <= i < |ps| && Selected(ps[i], n) && ps[i].state == Stopped) &&
                   (forall i :: 0 <= i < |ps| && Selected(ps[i], n) ==> ps[i].state != Running)
  {
    CountState(ps, n, Stopped) > 0 && CountState(ps, n, Running) == 0
  }

  /** What is_job_n_completed reports: whether every selected process has
      ended, and the process (if any) whose info it points job->info at. */
  datatype Completion = Completion(finished: bool, signaled: Option<nat>)

  /** `i` is the first selected process that did not complete normally, and it was killed. */
  ghost predicate FirstSignaled(ps: seq<Proc>, n: int, i: int)
  {
    0 <= i < |ps| && Selected(ps[i], n) && ps[i].state == Signaled &&
    forall j :: 0 <= j < i && Selected(ps[j], n) ==> ps[j].state == Completed
  }

  function CompletedFrom(ps: seq<Proc>, n: int, i: nat, sig: Option<nat>): (c: Completion)
    requires i <= |ps|
    requires forall j :: 0 <= j < i && Selected(ps[j], n) ==> Ended(ps[j].state)
    requires sig.None? ==> forall j :: 0 <= j < i && Selected(ps[j], n) ==> ps[j].state == Completed
    requires sig.Some? ==> FirstSignaled(ps, n, sig.value) && sig.value < i
    ensures c.finished <==> forall j :: 0 <= j < |ps| && Selected(ps[j], n) ==> Ended(ps[j].state)
    ensures forall k :: c.signaled == Some(k) <==> FirstSignaled(ps, n, k)
    decreases |ps| - i
  {
    if i == |ps| then Completion(true, sig)
    else if !Selected(ps[i], n) then CompletedFrom(ps, n, i + 1, sig)
    else if !Ended(ps[i].state) then Completion(false, sig)
    else if ps[i].state == Signaled && sig.None? then CompletedFrom(ps, n, i + 1, Some(i))
    else CompletedFrom(ps, n, i + 1, sig)
  }

  /** is_job_n_completed (src/jobs_control.c:182-204). */
  function IsJobNCompleted(ps: seq<Proc>, n: int): (c: Completion)
    ensures c.finished <==> forall j :: 0 <= j < |ps| && Selected(ps[j], n) ==> Ended(ps[j].state)
    ensures forall k :: c.signaled == Some(k) <==> FirstSignaled(ps, n, k)
  {
    CompletedFrom(ps, n, 0, None)
  }

  /** When every selected process has ended and one was killed, the scan
      reports a killed process. */
  lemma {:induction false} SignaledWitness(ps: seq<Proc>, n: int, i: int)
    requires 0 <= i < |ps| && Selected(ps[i], n) && ps[i].state == Signaled
    requires forall j :: 0 <= j < |ps| && Selected(ps[j], n) ==> Ended(ps[j].state)
    ensures exists k :: FirstSignaled(ps, n, k)
    decreases i
  {
    if !FirstSignaled(ps, n, i) {
      var j :| 0 <= j < i && Selected(ps[j], n) && ps[j].state != Completed;
      SignaledWitness(ps, n, j);
    }
  }

  lemma SignaledReported(ps: seq<Proc>)
    ensures ((forall i :: 0 <= i < |ps| ==> Ended(ps[i].state)) &&
             (exists i :: 0 <= i < |ps| && ps[i].state == Signaled))
            ==> IsJobNCompleted(ps, -1).signaled.Some?
  {
    if (exists i :: 0 <= i < |ps| && ps[i].state == Signaled) {
      var i :| 0 <= i < |ps| && ps[i].state == Signaled;
      if forall j :: 0 <= j < |ps| ==> Ended(ps[j].state) {
        SignaledWitness(ps, -1, i);
      }
    }
  }

  /** The job status analyce_job_status computes (src/jobs_control.c:268-285). */
  function JobStatus(ps: seq<Proc>): (r: State)
    ensures r != Ready
    ensures r == Signaled <==>
      (forall i :: 0 <= i < |ps| ==> Ended(ps[i].state)) && (exists i :: 0 <= i < |ps| && ps[i].state == Signaled)
    ensures r == Completed <==> forall i :: 0 <= i < |ps| ==> ps[i].state == Completed
    ensures r == Stopped <==>
      (exists i :: 0 <= i < |ps| && !Ended(ps[i].state)) &&
      (exists i :: 0 <= i < |ps| && ps[i].state == Stopped) &&
      (forall i :: 0 <= i < |ps| ==> ps[i].state != Running)
    ensures r == Running <==>
      (exists i :: 0 <= i < |ps| && !Ended(ps[i].state)) &&
      ((exists i :: 0 <= i < |ps| && ps[i].state == Running) ||
       (forall i :: 0 <= i < |ps| ==> ps[i].state != Stopped))
  {
    var c := IsJobNCompleted(ps, -1);
    SignaledReported(ps);
    if c.finished then (if c.signaled.Some? then Signaled else Completed)
    else if IsJobNStopped(ps, -1) then Stopped
    else Running
  }

  /** A job of the shell (struct T_Job) with the round-robin fields of shell.c. */
  class Job {
    /** The command line the job was created from. */
    const command: string
    var gpid: int
    var foreground: bool
    var status: State
    /** Index of the process whose info job->info points at. */
    var infoAt: int
    var notify: bool
    var cargarModo: bool
    var procs: seq<Proc>
    var kind: JobKind
    /** Round robin: the running replica and the number of replicas. */
    var active: int
    var total: int

    /** create_job's field initialisation (src/jobs_control.c:127-139) followed
        by prepare_job: processes from the parse, info at the last one. */
    constructor (cmd: string)
      ensures command == cmd && gpid == 0 && status == Ready && !notify && !cargarModo
      ensures foreground == Parse(cmd).foreground
      ensures procs == ProcsOf(Parse(cmd).stages) && infoAt == |procs| - 1
      ensures kind == NormalJob && active == 0 && total == 1
    {
      var parsed := PrepareJob(cmd);
      command := cmd;
      gpid := 0;
      status := Ready;
      notify := false;
      cargarModo := false;
      foreground := parsed.foreground;
      procs := ProcsOf(parsed.stages);
      infoAt := |parsed.stages| - 1;
      kind := NormalJob;
      active := 0;
      total := 1;
    }

    /** mark_process (src/jobs_control.c:254-266): the first process with that
        pid takes its next state; the others, and every process when none
        matches, are unchanged. */
    method MarkProcess(w: WaitStatus, pid: int)
      modifies this`procs
      ensures var k := FirstPid(old(procs), pid);
        if k < 0 then procs == old(procs)
        else procs == old(procs)[k := NextProcState(old(procs)[k], w)]
      ensures procs == Marked(old(procs), w, pid)
    {
      var i := 0;
      var found := false;
      while i < |procs| && !found
        invariant 0 <= i <= |procs| && |procs| == |old(procs)|
        invariant !found ==> procs == old(procs) && forall j :: 0 <= j < i ==> procs[j].pid != pid
        invariant found ==> 0 < i && FirstPid(old(procs), pid) == i - 1 &&
                            procs == old(procs)[i - 1 := NextProcState(old(procs)[i - 1], w)]
      {
        if procs[i].pid == pid {
          procs := procs[i := NextProcState(procs[i], w)];
          found := true;
        }
        i := i + 1;
      }
    }

    /** analyce_job_status (src/jobs_control.c:268-287), with the side effect of
        is_job_completed: job->info moves to the first killed process the
        scan meets. */
    method AnalyzeJobStatus()
      modifies this`status, this`infoAt
      ensures status == JobStatus(procs)
      ensures var c := IsJobNCompleted(procs, -1);
        infoAt == if c.signaled.Some? then c.signaled.value else old(infoAt)
    {
      var c := IsJobNCompleted(procs, -1);
      if c.signaled.Some? {
        infoAt := c.signaled.value;
      }
      if c.finished {
        if c.signaled.Some? {
          status := Signaled;
        } else {
          status := Completed;
        }
      } else if IsJobNStopped(procs, -1) {
        status := Stopped;
      } else {
        status := Running;
      }
    }
  }

  /** The process a stage becomes: no pid yet, Ready. */
  function ProcOf(st: Stage): Proc { Proc(st.args, st.argc, 0, Ready, 0, 0) }

  function ProcsOf(stages: seq<Stage>): (ps: seq<Proc>)
    ensures |ps| == |stages|
    ensures forall i :: 0 <= i < |ps| ==> ps[i] == ProcOf(stages[i])
  {
    if stages == [] then [] else [ProcOf(stages[0])] + ProcsOf(stages[1..])
  }

  /** search_job_by_process (src/jobs_control.c:289-309): the first job, in
      list order, having a process with that pid. */
  function SearchJobByProcess(jobs: seq<Job>, pid: int): (j: Job?)
    reads jobs
    ensures j == null <==> forall i :: 0 <= i < |jobs| ==> FirstPid(jobs[i].procs, pid) < 0
    ensures j != null ==> exists k :: 0 <= k < |jobs| && jobs[k] == j && FirstPid(j.procs, pid) >= 0 &&
                                      forall i :: 0 <= i < k ==> FirstPid(jobs[i].procs, pid) < 0
  {
    var k := FirstJobWith(jobs, pid);
    if k < 0 then null else jobs[k]
  }

  /** The index of the first job having a process with that pid, or -1. */
  function FirstJobWith(jobs: seq<Job>, pid: int): (k: int)
    reads jobs
    ensures -1 <= k < |jobs|
    ensures k >= 0 ==> FirstPid(jobs[k].procs, pid) >= 0 && forall i :: 0 <= i < k ==> FirstPid(jobs[i].procs, pid) < 0
    ensures k < 0 <==> forall i :: 0 <= i < |jobs| ==> FirstPid(jobs[i].procs, pid) < 0
  {
    if jobs == [] then -1
    else if FirstPid(jobs[0].procs, pid) >= 0 then 0
    else
      var k := FirstJobWith(jobs[1..], pid);
      if k < 0 then -1 else k + 1
  }

  /** The index of the first job with that gpid, or -1. */
  function FirstGpid(jobs: seq<Job>, gpid: int): (k: int)
    reads jobs
    ensures -1 <= k < |jobs|
    ensures k >= 0 ==> jobs[k].gpid == gpid && forall j :: 0 <= j < k ==> jobs[j].gpid != gpid
    ensures k < 0 <==> forall j :: 0 <= j < |jobs| ==> jobs[j].gpid != gpid
  {
    if jobs == [] then -1
    else if jobs[0].gpid == gpid then 0
    else
      var k := FirstGpid(jobs[1..], gpid);
      if k < 0 then -1 else k + 1
  }

  /** The list without its first job with that gpid. */
  function WithoutFirst(jobs: seq<Job>, gpid: int): seq<Job>
    reads jobs
  {
    var k := FirstGpid(jobs, gpid);
    if k < 0 then jobs else jobs[..k] + jobs[k + 1..]
  }

  /** Removing the gpid of a job appended to a list where that gpid is new
      gives the list back: remove_job undoes create_job. */
  lemma RemoveUndoesAppend(jobs: seq<Job>, j: Job)
    requires forall i :: 0 <= i < |jobs| ==> jobs[i].gpid != j.gpid
    ensures WithoutFirst(jobs + [j], j.gpid) == jobs
  {
    var k := FirstGpid(jobs + [j], j.gpid);
    assert (jobs + [j])[|jobs|].gpid == j.gpid;
    assert k == |jobs|;
    assert (jobs + [j])[..k] == jobs;
  }

  /** Removing one job keeps every other job, in order, and only drops a
      job with that gpid. */
  lemma {:induction false} WithoutFirstKeepsOrder(jobs: seq<Job>, gpid: int)
    ensures var r := WithoutFirst(jobs, gpid);
      (|r| == |jobs| <==> forall i :: 0 <= i < |jobs| ==> jobs[i].gpid != gpid) &&
      (|r| < |jobs| ==>
        |r| == |jobs| - 1 &&
        exists k :: 0 <= k < |jobs| && jobs[k].gpid == gpid && r == jobs[..k] + jobs[k + 1..])
  {
    var k := FirstGpid(jobs, gpid);
    if k >= 0 {
      assert |jobs[..k] + jobs[k + 1..]| == |jobs| - 1;
    }
  }

  /** The k-th job of a list; distinctness below is stated on this term. */
  function JobAt(jobs: seq<Job>, k: int): Job
    requires 0 <= k < |jobs|
  {
    jobs[k]
  }

  /** No job object appears twice. */
  ghost predicate Distinct(jobs: seq<Job>)
  {
    forall i, j {:trigger JobAt(jobs, i), JobAt(jobs, j)} :: 0 <= i < j < |jobs| ==> JobAt(jobs, i) != JobAt(jobs, j)
  }

  /** Dropping one entry keeps a list distinct. */
  lemma DistinctWithout(jobs: seq<Job>, k: nat)
    requires Distinct(jobs) && k < |jobs|
    ensures Distinct(jobs[..k] + jobs[k + 1..])
  {
    var r := jobs[..k] + jobs[k + 1..];
    forall i, j | 0 <= i < j < |r|
      ensures JobAt(r, i) != JobAt(r, j)
    {
      var i' := if i < k then i else i + 1;
      var j' := if j < k then j else j + 1;
      assert JobAt(r, i) == JobAt(jobs, i') && JobAt(r, j) == JobAt(jobs, j');
    }
  }

  /** Appending a job the list does not hold keeps it distinct. */
  lemma DistinctAppend(jobs: seq<Job>, job: Job)
    requires Distinct(jobs) && job !in jobs
    ensures Distinct(jobs + [job])
  {
    var r := jobs + [job];
    forall i, j | 0 <= i < j < |r|
      ensures JobAt(r, i) != JobAt(r, j)
    {
      if j < |jobs| {
        assert JobAt(r, i) == JobAt(jobs, i) && JobAt(r, j) == JobAt(jobs, j);
      } else {
        assert JobAt(r, i) == jobs[i];
      }
    }
  }

  /** The job list (ListJobs): jobs in creation order, each object once. */
  class JobList {
    var jobs: seq<Job>

    ghost predicate Valid()
      reads this
    {
      Distinct(jobs)
    }

    /** init_list_jobs (src/jobs_control.c:84-86). */
    constructor ()
      ensures jobs == [] && Valid()
    {
      jobs := [];
    }

    /** remove_job (src/jobs_control.c:144-165): drop the first job with that
        gpid; an empty list or a gpid no job has leaves the list unchanged. */
    method RemoveJob(gpid: int)
      requires Valid()
      modifies this
      ensures Valid()
      ensures jobs == WithoutFirst(old(jobs), gpid)
    {
      var i := 0;
      while i < |jobs| && jobs[i].gpid != gpid
        invariant 0 <= i <= |jobs|
        invariant forall j :: 0 <= j < i ==> jobs[j].gpid != gpid
      {
        i := i + 1;
      }
      if i < |jobs| {
        assert FirstGpid(jobs, gpid) == i;
        DistinctWithout(jobs, i);
        jobs := jobs[..i] + jobs[i + 1..];
      }
    }
  }

  /** create_job (src/jobs_control.c:121-142): NULL list or NULL command give
      NULL and change nothing; otherwise a new job for the command goes at
      the tail, the earlier jobs and their order untouched. An empty command
      still makes a job. */
  method CreateJob(list: JobList?, cmd: Option<string>) returns (job: Job?)
    requires list != null ==> list.Valid()
    modifies list
    ensures list == null || cmd.None? ==> job == null
    ensures list != null && cmd.None? ==> list.jobs == old(list.jobs)
    ensures list != null && cmd.Some? ==>
      job != null && fresh(job) && list.Valid() && list.jobs == old(list.jobs) + [job] &&
      job.command == cmd.value && job.gpid == 0 && job.status == Ready && !job.notify && !job.cargarModo &&
      job.foreground == Parse(cmd.value).foreground && job.procs == ProcsOf(Parse(cmd.value).stages) &&
      job.infoAt == |job.procs| - 1 && job.kind == NormalJob && job.active == 0 && job.total == 1
  {
    if list == null || cmd.None? {
      return null;
    }
    job := new Job(cmd.value);
    DistinctAppend(list.jobs, job);
    list.jobs := list.jobs + [job];
  }

  /** An empty command line gives one stage with no arguments: args[0] is NULL. */
  lemma EmptyCommand()
    ensures Parse("") == Parsed([Stage([], 0)], true)
  {
    ParseLine(0, [], []);
  }
}
