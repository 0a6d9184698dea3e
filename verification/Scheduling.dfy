/** Round-robin scheduling on the ring of tasks, as a state machine over timer ticks and thread creations. */
module Scheduling {

  datatype Proc = Proc(pid: int, rsp: int)

  /** The ring from `process_list` on, and where in it the current task is. */
  datatype State = State(procs: seq<Proc>, cur: int, nextPid: int, uptime: int)

  ghost predicate Sound(s: State) {
    && 0 <= s.cur < |s.procs| && s.nextPid > 0
    && (forall i :: 0 <= i < |s.procs| ==> 0 <= s.procs[i].pid < s.nextPid)
    && (forall i, j :: 0 <= i < j < |s.procs| ==> s.procs[i].pid != s.procs[j].pid)
  }

  /** `multitasking_initialize` */
  function First(uptime: int): State { State([Proc(0, 0)], 0, 1, uptime) }

  function Next(s: State, i: int): int
    requires 0 <= i < |s.procs|
  {
    if i + 1 == |s.procs| then 0 else i + 1
  }

  datatype Step = Tick(rsp: int) | Create(initialRsp: int)

  /** A tick saves the interrupted task's stack pointer and moves on; a new task enters behind `process_list`. */
  function After(s: State, step: Step): (t: State)
    requires 0 <= s.cur < |s.procs|
    ensures 0 <= t.cur < |t.procs|
  {
    match step
    case Tick(rsp) => State(s.procs[s.cur := Proc(s.procs[s.cur].pid, rsp)], Next(s, s.cur), s.nextPid, s.uptime + 10)
    case Create(rsp) =>
      State([s.procs[0], Proc(s.nextPid, rsp)] + s.procs[1..],
            if s.cur == 0 then 0 else s.cur + 1, s.nextPid + 1, s.uptime)
  }

  lemma StaysSound(s: State, step: Step)
    requires Sound(s)
    ensures Sound(After(s, step))
  {
  }

  function Run(s: State, steps: seq<Step>): (t: State)
    requires 0 <= s.cur < |s.procs|
    ensures 0 <= t.cur < |t.procs|
    decreases |steps|
  {
    if steps == [] then s else After(Run(s, steps[..|steps| - 1]), steps[|steps| - 1])
  }

  function Creations(steps: seq<Step>): nat {
    if steps == [] then 0 else (if steps[0].Create? then 1 else 0) + Creations(steps[1..])
  }

  lemma {:induction false} CreationsSplit(steps: seq<Step>)
    requires steps != []
    ensures Creations(steps) == Creations(steps[..|steps| - 1]) + if steps[|steps| - 1].Create? then 1 else 0
  {
    if |steps| > 1 {
      CreationsSplit(steps[1..]);
      assert steps[1..][..|steps| - 2] == steps[..|steps| - 1][1..];
    }
  }

  /** The ring holds the first task and every created one, with distinct ids, after any run. */
  lemma {:induction false} RunStaysSound(uptime: int, steps: seq<Step>)
    ensures Sound(Run(First(uptime), steps))
    ensures |Run(First(uptime), steps).procs| == 1 + Creations(steps) == Run(First(uptime), steps).nextPid
    decreases |steps|
  {
    if steps != [] {
      CreationsSplit(steps);
      RunStaysSound(uptime, steps[..|steps| - 1]);
      StaysSound(Run(First(uptime), steps[..|steps| - 1]), steps[|steps| - 1]);
    }
  }

  /** Where in the ring task `pid` is. */
  ghost predicate At(s: State, pid: int, i: int) { 0 <= i < |s.procs| && s.procs[i].pid == pid }

  /** Task ids are never lost. */
  lemma StillThere(s: State, step: Step, pid: int, i: int) returns (j: int)
    requires Sound(s) && At(s, pid, i)
    ensures At(After(s, step), pid, j) && j == (if step.Create? && i > 0 then i + 1 else i)
  {
    j := if step.Create? && i > 0 then i + 1 else i;
  }

  // Stack pointers.

  /** The last stack pointer that was saved for `pid`, or that it was created with. */
  function LastSaved(uptime: int, steps: seq<Step>, pid: int): int
    decreases |steps|
  {
    if steps == [] then 0
    else
      var before, step := Run(First(uptime), steps[..|steps| - 1]), steps[|steps| - 1];
      if step.Tick? && before.procs[before.cur].pid == pid then step.rsp
      else if step.Create? && before.nextPid == pid then step.initialRsp
      else LastSaved(uptime, steps[..|steps| - 1], pid)
  }

  /** Every task's stack pointer is the one it was last suspended or created with. */
  lemma {:induction false} KeepsStackPointers(uptime: int, steps: seq<Step>, pid: int, i: int)
    requires At(Run(First(uptime), steps), pid, i)
    ensures Run(First(uptime), steps).procs[i].rsp == LastSaved(uptime, steps, pid)
    decreases |steps|
  {
    if steps != [] {
      var front := steps[..|steps| - 1];
      var s, step := Run(First(uptime), front), steps[|steps| - 1];
      RunStaysSound(uptime, front);
      if step.Tick? {
        KeepsStackPointers(uptime, front, pid, i);
      } else if i != 1 {
        KeepsStackPointers(uptime, front, pid, if i == 0 then 0 else i - 1);
      }
    }
  }

  /** What the tick at the end of a run gives back: the stack pointer of the task it resumes, as last saved. */
  lemma ResumesAsSuspended(uptime: int, steps: seq<Step>)
    requires steps != [] && steps[|steps| - 1].Tick?
    ensures var t := Run(First(uptime), steps);
            0 <= t.cur < |t.procs| && t.procs[t.cur].rsp == LastSaved(uptime, steps, t.procs[t.cur].pid)
  {
    RunStaysSound(uptime, steps);
    var t := Run(First(uptime), steps);
    KeepsStackPointers(uptime, steps, t.procs[t.cur].pid, t.cur);
  }

  // Waiting.

  /** How many ticks until the task at `i` runs, if no task is created. */
  function Distance(s: State, i: int): int
    requires 0 <= s.cur < |s.procs| && 0 <= i < |s.procs|
  {
    if i >= s.cur then i - s.cur else i - s.cur + |s.procs|
  }

  /** Every tick brings a waiting task one step nearer. */
  lemma TickComesNearer(s: State, rsp: int, i: int)
    requires Sound(s) && 0 <= i < |s.procs| && i != s.cur
    ensures Distance(After(s, Tick(rsp)), i) == Distance(s, i) - 1
  {
  }

  /** A creation delays a task by one exactly when the place behind `process_list` is on the way to it. */
  lemma CreationDelays(s: State, rsp: int, i: int)
    requires Sound(s) && 0 <= i < |s.procs|
    ensures Distance(After(s, Create(rsp)), if i > 0 then i + 1 else 0)
            == Distance(s, i) + if Distance(s, 0) < Distance(s, i) then 1 else 0
  {
  }

  function Ticks(steps: seq<Step>): nat {
    if steps == [] then 0 else (if steps[0].Tick? then 1 else 0) + Ticks(steps[1..])
  }

  /** Task `pid` is the current one at some point of the run. */
  ghost predicate Runs(s: State, steps: seq<Step>, pid: int)
    requires Sound(s)
    decreases |steps|
  {
    s.procs[s.cur].pid == pid || (steps != [] && (StaysSound(s, steps[0]); Runs(After(s, steps[0]), steps[1..], pid)))
  }

  /** No task starves: it runs within as many ticks as its distance and the creations on the way add up to. */
  lemma {:induction false} RunsInTime(s: State, steps: seq<Step>, pid: int, i: int)
    requires Sound(s) && At(s, pid, i) && Ticks(steps) >= Distance(s, i) + Creations(steps)
    ensures Runs(s, steps, pid)
    decreases |steps|
  {
    if i != s.cur {
      StaysSound(s, steps[0]);
      var j := StillThere(s, steps[0], pid, i);
      match steps[0] {
        case Tick(rsp) => TickComesNearer(s, rsp, i);
        case Create(rsp) => CreationDelays(s, rsp, i);
      }
      RunsInTime(After(s, steps[0]), steps[1..], pid, j);
    }
  }
}
