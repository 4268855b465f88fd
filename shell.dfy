/** The job-control part of the shell driver (src/shell.c): how fg and bg
    pick a job by its number, the lookup in the built-in command table, the
    round-robin tick, the SIGCHLD sweep over the job list, bg on a stopped
    job, the notification pass run before each prompt, and the argument
    handling of the rr built-in. The signal handlers run here as ordinary
    sequential sweeps. */
module ShellDriver {
  import opened Defs
  import opened CStrings
  import opened JobsControl

  // ---------------------------------------------------------------------
  // Job numbers of fg and bg
  // ---------------------------------------------------------------------

  /** A job fg and bg can select: in the background and not a built-in run
      inside the shell (those get gpid -1). */
  predicate IsPending(j: Job)
    reads j
  {
    !j.foreground && j.gpid != -1
  }

  /** How many jobs of js fg and bg can select. */
  function PendingCount(js: seq<Job>): nat
    reads js
  {
    if js == [] then 0
    else PendingCount(js[..|js| - 1]) + (if IsPending(js[|js| - 1]) then 1 else 0)
  }

  lemma {:induction false} PendingCountPrefix(js: seq<Job>, i: nat, k: nat)
    requires i <= k <= |js|
    ensures PendingCount(js[..i]) <= PendingCount(js[..k])
    ensures i < k && IsPending(js[i]) ==> PendingCount(js[..i]) < PendingCount(js[..k])
    decreases k
  {
    if i < k {
      assert js[..k][..k - 1] == js[..k - 1];
      PendingCountPrefix(js, i, k - 1);
    }
  }

  /** job is the num-th selectable job of js (numbered from 1, in list
      order), or null when there is no such job. */
  ghost predicate NthPending(js: seq<Job>, num: int, job: Job?)
    reads js
  {
    (job == null <==> num < 1 || PendingCount(js) < num) &&
    (job != null ==> exists k :: 0 <= k < |js| && js[k] == job && IsPending(job) && PendingCount(js[..k]) == num - 1)
  }

  /** The number picks out one job: NthPending determines its job. */
  lemma NthPendingUnique(js: seq<Job>, num: int, a: Job?, b: Job?)
    requires NthPending(js, num, a) && NthPending(js, num, b)
    ensures a == b
  {
    if a != null {
      var i :| 0 <= i < |js| && js[i] == a && IsPending(a) && PendingCount(js[..i]) == num - 1;
      var k :| 0 <= k < |js| && js[k] == b && IsPending(b) && PendingCount(js[..k]) == num - 1;
      if i < k {
        PendingCountPrefix(js, i, k);
      } else if k < i {
        PendingCountPrefix(js, k, i);
      }
    }
  }

  /** search_process_by_number (src/shell.c:463-482). */
  method SearchProcessByNumber(js: seq<Job>, num: int) returns (job: Job?)
    ensures NthPending(js, num, job)
  {
    var i := 0;
    var n := 1;
    while i < |js|
      invariant 0 <= i <= |js|
      invariant n == PendingCount(js[..i]) + 1
      invariant num >= 1 ==> n <= num
    {
      assert js[..i + 1][..i] == js[..i];
      if IsPending(js[i]) {
        if n == num {
          PendingCountPrefix(js, i + 1, |js|);
          assert js[..|js|] == js;
          return js[i];
        }
        n := n + 1;
      }
      i := i + 1;
    }
    assert js[..i] == js;
    return null;
  }

  /** The two complaints of check_fg_bg_command_line. */
  datatype FgBgError = NoPendingJobs | NoSuchJob

  /** check_fg_bg_command_line (src/shell.c:484-503): the job number is the
      first argument, 1 when there is none; an unknown number is an error,
      reported differently when it was 1. */
  method CheckFgBgCommandLine(js: seq<Job>, p: Proc) returns (job: Job?, err: Option<FgBgError>)
    requires p.argc >= 2 ==> |p.args| >= 2
    ensures var num := if p.argc < 2 then 1 else Atoi(p.args[1]);
      NthPending(js, num, job) &&
      (err.None? <==> job != null) &&
      (err == Some(NoPendingJobs) <==> job == null && num == 1)
  {
    var number := if p.argc < 2 then 1 else Atoi(p.args[1]);
    job := SearchProcessByNumber(js, number);
    if job == null && number == 1 {
      err := Some(NoPendingJobs);
    } else if job == null {
      err := Some(NoSuchJob);
    } else {
      err := None;
    }
  }

  // ---------------------------------------------------------------------
  // Built-in commands
  // ---------------------------------------------------------------------

  /** The built-in command names in table order (INTERNAL_COMMAND in
      include/shell.h); the names of rr, timeout and children are not
      defined in the headers this model covers, so they are parameters. */
  function CommandTable(rr: string, timeout: string, children: string): (t: seq<string>)
    ensures |t| == 9 && t[5] == rr && t[7] == timeout && t[8] == children
    // each name of include/defs.h is nonempty and is found first at its own slot
    ensures forall k :: 0 <= k < 5 ==> t[k] != [] && t[k] !in t[..k]
    ensures t[6] != [] && t[6] !in t[..5]
  {
    [CMDEXIT, CMDFG, CMDBG, CMDJOBS, CMDCD, rr, CMDHIST, timeout, children]
  }

  /** indexOfInternalProcess (src/shell.c:353-367): the first table entry
      equal to the first argument, or -1. */
  method IndexOfInternalProcess(table: seq<string>, p: Proc) returns (index: int)
    requires |p.args| > 0
    ensures -1 <= index < |table|
    ensures index >= 0 ==> table[index] == p.args[0] && forall j :: 0 <= j < index ==> table[j] != p.args[0]
    ensures index < 0 <==> p.args[0] !in table
  {
    index := -1;
    var j := 0;
    while index == -1 && j < |table|
      invariant 0 <= j <= |table|
      invariant index == -1 ==> forall k :: 0 <= k < j ==> table[k] != p.args[0]
      invariant index != -1 ==> index == j - 1 && table[index] == p.args[0] &&
                                forall k :: 0 <= k < index ==> table[k] != p.args[0]
    {
      if p.args[0] == table[j] {
        index := j;
      }
      j := j + 1;
    }
  }

  // ---------------------------------------------------------------------
  // Round robin
  // ---------------------------------------------------------------------

  /** C's `%`, which truncates toward zero, for a positive divisor. */
  function CRem(a: int, b: int): (r: int)
    requires b > 0
    ensures a >= 0 ==> r == a % b
    ensures -b < r < b
  {
    if a >= 0 then a % b else -((-a) % b)
  }

  /** The replica after `active` among `total`: the next one, wrapping
      round to the first after the last. */
  function Rotate(active: int, total: int): (r: int)
    requires total > 0
    ensures 0 <= active < total ==> r == if active + 1 == total then 0 else active + 1
  {
    if 0 <= active < total then WrapMod(active + 1, total); CRem(active + 1, total)
    else CRem(active + 1, total)
  }

  /** The remainder of 1..b by b: itself below b, zero at b. */
  lemma WrapMod(a: int, b: int)
    requires 0 < a <= b
    ensures a % b == if a == b then 0 else a
  {
    if a == b {
      assert a % b == 0;
    }
  }

  /** The active replica after n ticks. */
  function Ticks(active: int, total: int, n: nat): int
    requires total > 0
  {
    if n == 0 then active else Rotate(Ticks(active, total, n - 1), total)
  }

  /** Within one round, n ticks move the turn n replicas on, wrapping round
      once past the last replica. */
  lemma {:induction false} TicksAdvance(active: int, total: int, n: nat)
    requires 0 <= active < total && n <= total
    ensures Ticks(active, total, n) == if active + n < total then active + n else active + n - total
  {
    if n > 0 {
      TicksAdvance(active, total, n - 1);
    }
  }

  /** After `total` ticks every replica has had its turn and the first one
      is running again; no earlier tick gives it back. */
  lemma RotationPeriod(active: int, total: int)
    requires 0 <= active < total
    ensures 0 <= Ticks(active, total, 1) < total
    ensures Ticks(active, total, total) == active
    ensures forall n: nat :: 0 < n < total ==> Ticks(active, total, n) != active
  {
    TicksAdvance(active, total, 1);
    TicksAdvance(active, total, total);
    forall n: nat | 0 < n < total
      ensures Ticks(active, total, n) != active
    {
      TicksAdvance(active, total, n);
    }
  }

  /** A job the round-robin tick rotates. */
  predicate Rotates(j: Job)
    reads j
  {
    j.kind == RrJob && j.total > 1
  }

  /** The job's turn after one tick, from active replica `active0`. */
  ghost predicate TookTurn(j: Job, active0: int)
    reads j
  {
    j.active == if Rotates(j) then Rotate(active0, j.total) else active0
  }

  // ---------------------------------------------------------------------
  // The SIGCHLD sweep
  // ---------------------------------------------------------------------

  /** The processes after the sweep's waitpid calls: waits[i] is what
      waitpid reported for the i-th process (None when it returned no
      pid), and each report is applied to the first process with that pid. */
  function Swept(ps: seq<Proc>, waits: seq<Option<WaitStatus>>): (qs: seq<Proc>)
    requires |waits| <= |ps|
    ensures |qs| == |ps| && forall i :: 0 <= i < |ps| ==> qs[i].pid == ps[i].pid
  {
    if waits == [] then ps
    else
      var n := |waits| - 1;
      var qs := Swept(ps, waits[..n]);
      match waits[n]
      case None => qs
      case Some(w) => Marked(qs, w, ps[n].pid)
  }

  /** No two processes of the list share a pid. */
  ghost predicate DistinctPids(ps: seq<Proc>)
  {
    forall i, j :: 0 <= i < j < |ps| ==> ps[i].pid != ps[j].pid
  }

  /** With distinct pids, the sweep gives each process the next state its
      own report names, and leaves a process without a report as it was. */
  lemma {:induction false} SweptEach(ps: seq<Proc>, waits: seq<Option<WaitStatus>>)
    requires |waits| <= |ps| && DistinctPids(ps)
    ensures forall i :: 0 <= i < |ps| ==>
      Swept(ps, waits)[i] == if i < |waits| && waits[i].Some? then NextProcState(ps[i], waits[i].value) else ps[i]
  {
    if waits != [] {
      var n := |waits| - 1;
      SweptEach(ps, waits[..n]);
      var qs := Swept(ps, waits[..n]);
      forall i | 0 <= i < |ps|
        ensures Swept(ps, waits)[i] == if i < |waits| && waits[i].Some? then NextProcState(ps[i], waits[i].value) else ps[i]
      {
        if i < n {
          assert waits[..n][i] == waits[i];
        }
        if waits[n].Some? && i == n {
          forall j | 0 <= j < n
            ensures qs[j].pid != ps[n].pid
          {
            assert ps[j].pid != ps[n].pid;
          }
        }
      }
    }
  }

  /** When updateJobs flags a job for the next notification pass: the job
      is in the background, none of its processes runs, and either all of
      them have ended or one of them is stopped. */
  ghost predicate Notifiable(foreground: bool, ps: seq<Proc>)
  {
    !foreground && (forall i :: 0 <= i < |ps| ==> ps[i].state != Running) &&
    ((forall i :: 0 <= i < |ps| ==> Ended(ps[i].state)) || exists i :: 0 <= i < |ps| && ps[i].state == Stopped)
  }

  /** A job with processes `procs`, status, info index and notify flag is
      in the state one pass of updateJobs leaves it in, from processes
      `procs0` and info index `info0`. */
  ghost predicate Settled(procs: seq<Proc>, status: State, infoAt: int, notify: bool, foreground: bool,
                          procs0: seq<Proc>, info0: int, waits: seq<Option<WaitStatus>>)
    requires |waits| <= |procs0|
  {
    var c := IsJobNCompleted(procs, -1);
    procs == Swept(procs0, waits) &&
    status == JobStatus(procs) &&
    infoAt == (if c.signaled.Some? then c.signaled.value else info0) &&
    (notify <==> Notifiable(foreground, procs))
  }

  ghost predicate Updated(j: Job, procs0: seq<Proc>, info0: int, waits: seq<Option<WaitStatus>>)
    requires |waits| <= |procs0|
    reads j
  {
    Settled(j.procs, j.status, j.infoAt, j.notify, j.foreground, procs0, info0, waits)
  }

  /** The notify rule of updateJobs (src/shell.c:160), in terms of the
      processes: a stopped or ended job status is exactly Notifiable. */
  lemma NotifyRule(ps: seq<Proc>, foreground: bool)
    ensures ((JobStatus(ps) == Stopped || Ended(JobStatus(ps))) && !foreground) <==> Notifiable(foreground, ps)
  {
  }

  /** After one pass of updateJobs over a job whose processes have distinct
      pids, each process holds the next state its own waitpid report names,
      and a process without a report is unchanged. */
  lemma UpdatedEach(j: Job, procs0: seq<Proc>, info0: int, waits: seq<Option<WaitStatus>>)
    requires |waits| == |procs0| && DistinctPids(procs0)
    requires Updated(j, procs0, info0, waits)
    ensures |j.procs| == |procs0|
    ensures forall i :: 0 <= i < |waits| ==>
      j.procs[i] == if waits[i].Some? then NextProcState(procs0[i], waits[i].value) else procs0[i]
  {
    SweptEach(procs0, waits);
  }

  /** One job of updateJobs (src/shell.c:142-161): a waitpid report per
      process, then the roll-up into the job status and the notify flag. */
  method UpdateJob(j: Job, waits: seq<Option<WaitStatus>>)
    requires |waits| == |j.procs|
    modifies j`procs, j`status, j`infoAt, j`notify
    ensures Updated(j, old(j.procs), old(j.infoAt), waits)
  {
    var k := 0;
    while k < |waits|
      invariant 0 <= k <= |waits| == |old(j.procs)| == |j.procs|
      invariant j.procs == Swept(old(j.procs), waits[..k])
      invariant j.infoAt == old(j.infoAt)
    {
      assert waits[..k + 1][..k] == waits[..k];
      if waits[k].Some? {
        j.MarkProcess(waits[k].value, j.procs[k].pid);
      }
      k := k + 1;
    }
    assert waits[..k] == waits;
    j.AnalyzeJobStatus();
    NotifyRule(j.procs, j.foreground);
    j.notify := (j.status == Stopped || Ended(j.status)) && !j.foreground;
  }

  // ---------------------------------------------------------------------
  // bg
  // ---------------------------------------------------------------------

  /** put_job_background (src/shell.c:275-284): a stopped job resumes in the
      background; a job in any other state is left alone. */
  method PutJobBackground(job: Job)
    modifies job`status, job`foreground
    ensures old(job.status) == Stopped ==> job.status == Running && !job.foreground
    ensures old(job.status) != Stopped ==> job.status == old(job.status) && job.foreground == old(job.foreground)
  {
    if job.status == Stopped {
      job.status := Running;
      job.foreground := false;
    }
  }

  // ---------------------------------------------------------------------
  // The notification pass
  // ---------------------------------------------------------------------

  /** What the notification pass reads of a job. */
  datatype View = View(foreground: bool, status: State, notify: bool, gpid: int, command: string)

  function ViewOf(j: Job): View
    reads j
  {
    View(j.foreground, j.status, j.notify, j.gpid, j.command)
  }

  function Views(js: seq<Job>): (vs: seq<View>)
    reads js
    ensures |vs| == |js| && forall k :: 0 <= k < |js| ==> vs[k] == ViewOf(js[k])
  {
    if js == [] then [] else Views(js[..|js| - 1]) + [ViewOf(js[|js| - 1])]
  }

  /** What the pass saw of j is still what j holds, apart from the flag. */
  ghost predicate Seen(j: Job, v: View)
    reads j`foreground, j`status, j`gpid
  {
    j.foreground == v.foreground && j.status == v.status && j.gpid == v.gpid && j.command == v.command
  }

  /** A background job that has finished: the notification pass prints it
      one last time and removes it. */
  predicate Removable(v: View)
  {
    !v.foreground && Ended(v.status)
  }

  /** The jobs of js the notification pass keeps, in order; vs[k] is what
      it sees of js[k]. */
  function Kept(js: seq<Job>, vs: seq<View>): (r: seq<Job>)
    requires |js| == |vs|
    ensures |r| <= |js|
    ensures forall j :: j in r ==> j in js
  {
    if js == [] then []
    else
      var n := |js| - 1;
      Kept(js[..n], vs[..n]) + (if Removable(vs[n]) then [] else [js[n]])
  }

  /** The pass keeps exactly the jobs that are not removable, each once
      when js holds each job once. */
  lemma {:induction false} KeptExactly(js: seq<Job>, vs: seq<View>, k: nat)
    requires |js| == |vs| && k < |js|
    ensures js[k] in Kept(js, vs) <== !Removable(vs[k])
    ensures Distinct(js) ==> (js[k] in Kept(js, vs) ==> !Removable(vs[k]))
  {
    var n := |js| - 1;
    var pre := js[..n];
    if k < n {
      assert pre[k] == js[k];
      KeptExactly(pre, vs[..n], k);
      if Distinct(js) {
        forall a, b | 0 <= a < b < |pre|
          ensures JobAt(pre, a) != JobAt(pre, b)
        {
          assert JobAt(pre, a) == JobAt(js, a) && JobAt(pre, b) == JobAt(js, b);
        }
        assert JobAt(js, k) != JobAt(js, n);
      }
    } else if Distinct(js) {
      forall x | x in Kept(pre, vs[..n])
        ensures x != js[n]
      {
        var a :| 0 <= a < n && pre[a] == x;
        assert JobAt(js, a) != JobAt(js, n);
      }
    }
  }


  /** When every job the pass keeps has lost its flag, no job left in the
      list carries one. */
  lemma KeptCleared(js: seq<Job>, vs: seq<View>, i: int)
    requires |js| == |vs| == i && Distinct(js)
    requires forall k :: 0 <= k < i && !Removable(vs[k]) ==> !js[k].notify
    ensures forall j :: j in Kept(js, vs) ==> !j.notify
  {
    forall x | x in Kept(js, vs)
      ensures !x.notify
    {
      var k :| 0 <= k < |js| && js[k] == x;
      KeptExactly(js, vs, k);
    }
  }


  /** How many of the jobs seen as vs are in the background: the job
      numbers the user sees. */
  function BgCount(vs: seq<View>): nat
  {
    if vs == [] then 0
    else BgCount(vs[..|vs| - 1]) + (if vs[|vs| - 1].foreground then 0 else 1)
  }

  /** One line print_job_state writes: the job number, the job's status and
      its command. */
  datatype Notice = Notice(number: int, status: State, command: string)

  /** The lines the notification pass prints for jobs seen as vs, in order. */
  function Notices(vs: seq<View>): seq<Notice>
  {
    if vs == [] then []
    else
      var n := |vs| - 1;
      var v := vs[n];
      Notices(vs[..n]) + (if Removable(v) || v.notify then [Notice(1 + BgCount(vs[..n]), v.status, v.command)] else [])
  }

  /** When only background jobs carry the notify flag (what updateJobs
      sets up), the printed job numbers increase strictly and each lies
      between 1 and the number of background jobs. */
  lemma {:induction false} NoticeNumbers(vs: seq<View>)
    requires forall v :: v in vs && v.notify ==> !v.foreground
    ensures forall a :: 0 <= a < |Notices(vs)| ==> 1 <= Notices(vs)[a].number <= BgCount(vs)
    ensures forall a, b :: 0 <= a < b < |Notices(vs)| ==> Notices(vs)[a].number < Notices(vs)[b].number
  {
    if vs != [] {
      var n := |vs| - 1;
      var pre := vs[..n];
      assert forall v :: v in pre ==> v in vs;
      NoticeNumbers(pre);
      var last := vs[n];
      assert BgCount(vs) == BgCount(pre) + (if last.foreground then 0 else 1);
      if Removable(last) || last.notify {
        assert !last.foreground;
        assert Notices(vs) == Notices(pre) + [Notice(1 + BgCount(pre), last.status, last.command)];
      }
    }
  }


  /** The gpid of every finished background job belongs to that job alone,
      so removing by gpid removes that job (each launched job leads its own
      process group). */
  ghost predicate FinishedGroupsUnique(vs: seq<View>)
  {
    forall i, k {:trigger GroupOf(vs, i), GroupOf(vs, k)} ::
      0 <= i < |vs| && 0 <= k < |vs| && i != k && Removable(vs[i]) ==> GroupOf(vs, k) != GroupOf(vs, i)
  }

  /** The process group of the k-th job seen. */
  function GroupOf(vs: seq<View>, k: int): int
    requires 0 <= k < |vs|
  {
    vs[k].gpid
  }

  /** The notification pass has looked at the first i jobs of js (seen as
      vs): it has printed their lines, counted their background jobs into
      the next job number n, and the list holds the kept ones followed by
      the jobs still to look at. */
  ghost predicate Passing(js: seq<Job>, vs: seq<View>, i: int, n: int, notices: seq<Notice>, jobs: seq<Job>)
  {
    |js| == |vs| && 0 <= i <= |js| && n == 1 + BgCount(vs[..i]) && notices == Notices(vs[..i]) &&
    jobs == Kept(js[..i], vs[..i]) + js[i..]
  }

  /** One more job looked at. */
  lemma PassingStep(js: seq<Job>, vs: seq<View>, i: int, n: int, notices: seq<Notice>, jobs: seq<Job>,
                    i': int, n': int, notices': seq<Notice>, jobs': seq<Job>)
    requires Passing(js, vs, i, n, notices, jobs) && i < |js| && i' == i + 1
    requires n' == n + (if vs[i].foreground then 0 else 1)
    requires notices' == notices + (if Removable(vs[i]) || vs[i].notify then [Notice(n, vs[i].status, vs[i].command)] else [])
    requires jobs' == if Removable(vs[i]) then Kept(js[..i], vs[..i]) + js[i + 1..] else jobs
    ensures Passing(js, vs, i', n', notices', jobs')
  {
    assert js[..i + 1][..i] == js[..i];
    assert vs[..i + 1][..i] == vs[..i];
    assert js[i..] == [js[i]] + js[i + 1..];
  }

  /** Nothing looked at yet. */
  lemma PassingStart(js: seq<Job>, vs: seq<View>)
    requires |js| == |vs|
    ensures Passing(js, vs, 0, 1, [], js)
  {
    assert js[..0] == [] && vs[..0] == [] && js[0..] == js;
  }

  /** Every job looked at: the list is what the pass keeps and the lines
      are all of its lines. */
  lemma PassingDone(js: seq<Job>, vs: seq<View>, i: int, n: int, notices: seq<Notice>, jobs: seq<Job>)
    requires Passing(js, vs, i, n, notices, jobs) && i == |js|
    ensures jobs == Kept(js, vs) && notices == Notices(vs)
  {
    assert js[..i] == js && vs[..i] == vs && js[i..] == [];
  }


  /** remove_job on the list the pass has built so far drops exactly the
      job being looked at. */
  lemma RemoveStep(js: seq<Job>, vs: seq<View>, i: nat)
    requires |js| == |vs| && i < |js| && FinishedGroupsUnique(vs) && Removable(vs[i])
    requires forall k :: 0 <= k < |js| ==> js[k].gpid == vs[k].gpid
    ensures WithoutFirst(Kept(js[..i], vs[..i]) + js[i..], js[i].gpid) == Kept(js[..i], vs[..i]) + js[i + 1..]
  {
    var kept := Kept(js[..i], vs[..i]);
    forall x | x in kept
      ensures x.gpid != js[i].gpid
    {
      var k :| 0 <= k < i && js[..i][k] == x;
      assert js[k] == x && GroupOf(vs, k) != GroupOf(vs, i);
    }
    assert js[i..] == [js[i]] + js[i + 1..];
    RemoveAt(kept, js[i], js[i + 1..]);
  }

  lemma RemoveAt(kept: seq<Job>, j: Job, rest: seq<Job>)
    requires forall x :: x in kept ==> x.gpid != j.gpid
    ensures WithoutFirst(kept + ([j] + rest), j.gpid) == kept + rest
  {
    var s := kept + ([j] + rest);
    assert s[|kept|] == j;
    var k := FirstGpid(s, j.gpid);
    assert forall i :: 0 <= i < |kept| ==> s[i] == kept[i];
    assert k == |kept|;
    assert s[..k] == kept && s[k + 1..] == rest;
  }

  /** The process lists of the jobs js. */
  function ProcLists(js: seq<Job>): (r: seq<seq<Proc>>)
    reads js
    ensures |r| == |js| && forall k :: 0 <= k < |js| ==> r[k] == js[k].procs
  {
    if js == [] then [] else ProcLists(js[..|js| - 1]) + [js[|js| - 1].procs]
  }

  /** The info indices of the jobs js. */
  function InfoIndices(js: seq<Job>): (r: seq<int>)
    reads js
    ensures |r| == |js| && forall k :: 0 <= k < |js| ==> r[k] == js[k].infoAt
  {
    if js == [] then [] else InfoIndices(js[..|js| - 1]) + [js[|js| - 1].infoAt]
  }

  lemma UpdatedExtend(js: seq<Job>, procs0: seq<seq<Proc>>, info0: seq<int>, waits: seq<seq<Option<WaitStatus>>>, i: nat)
    requires i < |js| == |procs0| == |info0| == |waits|
    requires forall k :: 0 <= k < |js| ==> |waits[k]| == |procs0[k]|
    requires forall k :: 0 <= k < i ==> Updated(js[k], procs0[k], info0[k], waits[k])
    requires Updated(js[i], procs0[i], info0[i], waits[i])
    ensures forall k :: 0 <= k < i + 1 ==> Updated(js[k], procs0[k], info0[k], waits[k])
  {
  }

  /** The shell image (struct T_Shell) as far as job control goes. */
  class Shell {
    const list: JobList
    var sigalarmOn: bool

    constructor (l: JobList)
      ensures list == l && !sigalarmOn
    {
      list := l;
      sigalarmOn := false;
    }

    /** roundRobin (src/shell.c:100-131): every round-robin job with more
        than one replica passes the turn to the next replica; the alarm is
        re-armed when some job rotated, and sigalarm_on is cleared otherwise. */
    method RoundRobin() returns (rearm: bool)
      requires list.Valid()
      modifies this`sigalarmOn, list.jobs`active
      ensures forall k :: 0 <= k < |list.jobs| ==> TookTurn(list.jobs[k], old(list.jobs[k].active))
      ensures rearm <==> exists k :: 0 <= k < |list.jobs| && Rotates(list.jobs[k])
      ensures sigalarmOn == (rearm && old(sigalarmOn))
    {
      var js := list.jobs;
      assert Distinct(js);
      var updated := 0;
      var i := 0;
      while i < |js|
        invariant 0 <= i <= |js|
        invariant forall k :: 0 <= k < i ==> TookTurn(js[k], old(js[k].active))
        invariant forall k :: i <= k < |js| ==> js[k].active == old(js[k].active)
        invariant updated >= 0 && (updated > 0 <==> exists k :: 0 <= k < i && Rotates(js[k]))
        invariant sigalarmOn == old(sigalarmOn)
      {
        var j := js[i];
        forall k | 0 <= k < |js| && k != i
          ensures js[k] != js[i]
        {
          assert JobAt(js, k) != JobAt(js, i);
        }
        if j.kind == RrJob && j.total > 1 {
          var current := j.active;
          var next := CRem(current + 1, j.total);
          j.active := next;
          updated := updated + 1;
        }
        assert TookTurn(j, old(j.active));
        i := i + 1;
      }
      rearm := updated > 0;
      if !rearm {
        sigalarmOn := false;
      }
    }

    /** updateJobs (src/shell.c:137-165) as one sweep over the job list;
        waits[i] holds the waitpid reports for the i-th job's processes. */
    method UpdateJobs(waits: seq<seq<Option<WaitStatus>>>)
      requires list.Valid()
      requires |waits| == |list.jobs|
      requires forall i :: 0 <= i < |waits| ==> |waits[i]| == |list.jobs[i].procs|
      modifies list.jobs`procs, list.jobs`status, list.jobs`infoAt, list.jobs`notify
      ensures forall i :: 0 <= i < |waits| ==>
        Updated(list.jobs[i], old(list.jobs[i].procs), old(list.jobs[i].infoAt), waits[i])
    {
      var js := list.jobs;
      assert Distinct(js);
      ghost var procs0 := ProcLists(js);
      ghost var info0 := InfoIndices(js);
      var i := 0;
      while i < |js|
        invariant 0 <= i <= |js|
        invariant forall k :: 0 <= k < i ==> Updated(js[k], procs0[k], info0[k], waits[k])
        invariant forall k :: i <= k < |js| ==> js[k].procs == procs0[k] && js[k].infoAt == info0[k]
      {
        forall k | 0 <= k < |js| && k != i
          ensures js[k] != js[i]
        {
          assert JobAt(js, k) != JobAt(js, i);
        }
        UpdateJob(js[i], waits[i]);
        UpdatedExtend(js, procs0, info0, waits, i);
        i := i + 1;
      }
    }

    /** One turn of the loop of notify_and_clean_jobs, on the i-th job:
        a finished background job is reported and removed, another flagged
        job is reported and loses its flag; background jobs advance the job
        number. */
    method Visit(js: seq<Job>, ghost vs: seq<View>, i: int, job: Job, n: int, notices: seq<Notice>)
      returns (i': int, n': int, notices': seq<Notice>)
      requires Passing(js, vs, i, n, notices, list.jobs) && i < |js| && job == js[i]
      requires list.Valid() && FinishedGroupsUnique(vs) && Distinct(js)
      requires forall k :: 0 <= k < |js| ==> Seen(js[k], vs[k])
      requires forall k :: i <= k < |js| ==> js[k].notify == vs[k].notify
      requires forall k :: 0 <= k < i && !Removable(vs[k]) ==> !js[k].notify
      modifies list, job`notify
      ensures i' == i + 1
      ensures Passing(js, vs, i', n', notices', list.jobs)
      ensures list.Valid()
      ensures forall k :: 0 <= k < |js| ==> Seen(js[k], vs[k])
      ensures forall k :: i' <= k < |js| ==> js[k].notify == vs[k].notify
      ensures forall k :: 0 <= k < i' && !Removable(vs[k]) ==> !js[k].notify
    {
      var jobs := list.jobs;
      forall k | 0 <= k < |js| && k != i
        ensures js[k] != job
      {
        assert JobAt(js, k) != JobAt(js, i);
      }
      if !job.foreground && Ended(job.status) {
        notices' := notices + [Notice(n, job.status, job.command)];
        RemoveStep(js, vs, i);
        list.RemoveJob(job.gpid);
      } else if job.notify {
        notices' := notices + [Notice(n, job.status, job.command)];
        job.notify := false;
      } else {
        notices' := notices;
      }
      n' := if job.foreground then n else n + 1;
      i' := i + 1;
      PassingStep(js, vs, i, n, notices, jobs, i', n', notices', list.jobs);
    }

    /** notify_and_clean_jobs (src/shell.c:551-576): every finished
        background job is reported and removed, every other flagged job is
        reported and its flag cleared; the other jobs keep their order. */
    method NotifyAndCleanJobs() returns (notices: seq<Notice>)
      requires list.Valid() && FinishedGroupsUnique(Views(list.jobs))
      modifies list, list.jobs`notify
      ensures list.Valid()
      ensures list.jobs == Kept(old(list.jobs), old(Views(list.jobs)))
      ensures forall j :: j in list.jobs ==> !j.notify
      ensures notices == Notices(old(Views(list.jobs)))
    {
      var js := list.jobs;
      ghost var vs := Views(js);
      assert Distinct(js);
      notices := [];
      var i := 0;
      var n := 1;
      PassingStart(js, vs);
      while i < |js|
        invariant Passing(js, vs, i, n, notices, list.jobs)
        invariant list.Valid()
        invariant forall k :: 0 <= k < |js| ==> Seen(js[k], vs[k])
        invariant forall k :: i <= k < |js| ==> js[k].notify == vs[k].notify
        invariant forall k :: 0 <= k < i && !Removable(vs[k]) ==> !js[k].notify
      {
        i, n, notices := Visit(js, vs, i, js[i], n, notices);
      }
      PassingDone(js, vs, i, n, notices, list.jobs);
      KeptCleared(js, vs, i);
    }
  }

  // ---------------------------------------------------------------------
  // The rr built-in and the jobs listing
  // ---------------------------------------------------------------------

  /** The two complaints of cmd_rr_handler. */
  datatype RrError = RrUsage | RrCount

  /** The argument handling of cmd_rr_handler (src/shell.c:397-413): fewer
      than three arguments or a replica count below 1 is an error and
      changes nothing; otherwise "rr" and the count are dropped, the other
      arguments and the NULL after them move down two places, and argc
      drops by 2. */
  method CmdRrArguments(args: array<Option<string>>, argc: int) returns (newArgc: int, err: Option<RrError>)
    requires args.Length == MAX_ARGS + 1 && 0 <= argc <= MAX_ARGS
    requires argc >= 3 ==> args[1].Some?
    modifies args
    ensures argc < 3 ==> err == Some(RrUsage)
    ensures argc >= 3 ==> (err == Some(RrCount) <==> Atoi(old(args[1]).value) < 1)
    ensures err.Some? ==> newArgc == argc && args[..] == old(args[..])
    ensures err.None? ==> newArgc == argc - 2
    ensures err.None? ==> forall k :: 0 <= k < argc - 1 ==> args[k] == old(args[k + 2])
    ensures err.None? ==> forall k :: argc - 1 <= k < args.Length ==> args[k] == old(args[k])
  {
    if argc < 3 {
      return argc, Some(RrUsage);
    }
    var num := Atoi(args[1].value);
    if num < 1 {
      return argc, Some(RrCount);
    }
    ghost var a0 := args[..];
    var i := 0;
    while i < argc - 1
      invariant 0 <= i <= argc - 1
      invariant forall k :: 0 <= k < i ==> args[k] == a0[k + 2]
      invariant forall k :: i <= k < args.Length ==> args[k] == a0[k]
    {
      args[i] := args[i + 2];
      i := i + 1;
    }
    return argc - 2, None;
  }

  /** The status column of print_job_state (src/shell.c:29-51); a job still
      Ready gets no label. */
  function JobStateLabel(s: State): (r: Option<string>)
    ensures r.None? <==> s == Ready
    ensures r.Some? ==> 0 < |r.value| <= 15
  {
    match s
    case Completed => Some("Hecho")
    case Stopped => Some("Detenido")
    case Running => Some("En ejecución")
    case Signaled => Some("Signaled")
    case Ready => None
  }
}
