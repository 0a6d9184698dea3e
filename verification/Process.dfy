/** `process.c`: the tasks as linked nodes, switched by the timer interrupt. */
module Process {
  import opened Bits
  import S = Scheduling

  /** `struct registers`, in the order in which the interrupt return pops it. */
  datatype Registers = Registers(rdi: Word, rsi: Word, rbp: Word, rbx: Word, rdx: Word, rcx: Word, rax: Word,
                                 r8: Word, r9: Word, r10: Word, r11: Word, r12: Word, r13: Word, r14: Word, r15: Word,
                                 rip: Word, cs: Word, rflags: Word, rsp: Word, ss: Word)

  /** What is popped from the words on the stack. */
  function Popped(w: seq<Word>): Registers
    requires |w| == 20
  {
    Registers(w[0], w[1], w[2], w[3], w[4], w[5], w[6], w[7], w[8], w[9], w[10], w[11], w[12], w[13], w[14],
              w[15], w[16], w[17], w[18], w[19])
  }

  class Task {
    var pid: int
    var rsp: Word
    var pageDirectory: Word
    var next: Task?

    constructor (pid: int, pageDirectory: Word, next: Task?)
      ensures this.pid == pid && rsp == 0 && this.pageDirectory == pageDirectory && this.next == next
    {
      this.pid, rsp, this.pageDirectory, this.next := pid, 0, pageDirectory, next;
    }
  }

  ghost predicate LinkedAt(ring: seq<Task>, i: int)
    requires 0 <= i < |ring|
    reads ring`next
  {
    ring[i].next == ring[if i + 1 == |ring| then 0 else i + 1]
  }

  /** Different nodes, each pointing to the one behind it, the last to the first. */
  ghost predicate IsRing(ring: seq<Task>)
    reads ring`next
  {
    && ring != []
    && (forall i, j :: 0 <= i < j < |ring| ==> ring[i] != ring[j])
    && (forall i {:trigger LinkedAt(ring, i)} :: 0 <= i < |ring| ==> LinkedAt(ring, i))
  }

  /** Node `i` holds this id and stack pointer. */
  ghost predicate HoldsProc(ring: seq<Task>, procs: seq<S.Proc>, i: int)
    requires 0 <= i < |ring| == |procs|
    reads ring
  {
    procs[i] == S.Proc(ring[i].pid, ring[i].rsp)
  }

  ghost predicate HoldsProcs(ring: seq<Task>, procs: seq<S.Proc>)
    reads ring
  {
    |procs| == |ring| && forall i :: 0 <= i < |ring| ==> HoldsProc(ring, procs, i)
  }

  class Multitasking {
    var currentProcess: Task?
    var processList: Task?
    var uptime: nat
    var nextPid: int
    ghost var ring: seq<Task>
    ghost var procs: seq<S.Proc>
    ghost var cur: nat

    ghost function View(): S.State
      reads this
    {
      S.State(procs, cur, nextPid, uptime)
    }

    /**
     Either nothing was initialised, or `ring` is the ring of tasks from `processList` on, and
     `procs` what they hold.
     */
    ghost predicate Valid()
      reads this, ring
    {
      if currentProcess == null then processList == null && ring == []
      else
        && IsRing(ring) && HoldsProcs(ring, procs) && S.Sound(View())
        && currentProcess == ring[cur] && processList == ring[0]
    }

    /** Before `multitasking_initialize`. */
    constructor (uptime: nat)
      ensures Valid() && currentProcess == null && this.uptime == uptime && nextPid == 1
    {
      currentProcess, processList, this.uptime, nextPid := null, null, uptime, 1;
      ring, procs, cur := [], [], 0;
    }

    /** `multitasking_initialize` */
    method Initialize(activePageDir: Word)
      requires currentProcess == null && nextPid == 1
      modifies this
      ensures Valid() && currentProcess != null && fresh(ring) && View() == S.First(uptime) && uptime == old(uptime)
      ensures currentProcess.pageDirectory == activePageDir
    {
      var task := new Task(0, activePageDir, null);
      task.next := task;
      currentProcess, processList := task, task;
      ring, procs, cur := [task], [S.Proc(0, 0)], 0;
      assert LinkedAt(ring, 0);
    }

    /** `create_kernel_thread`; `stack` is the block at physical address `stackPhys`, as 512 words. */
    method CreateKernelThread(entry: Word, stackPhys: Word, stack: array<Word>)
      requires Valid() && currentProcess != null
      requires stackPhys % 4096 == 0 && stackPhys + 4096 < U64 && stack.Length == 512
      modifies this, ring, stack
      ensures Valid() && currentProcess == old(currentProcess)
      ensures View() == S.After(old(View()), S.Create(stackPhys + 4096 - 160))
      ensures |ring| > 1 && fresh(ring[1]) && ring[1].pageDirectory == old(currentProcess.pageDirectory)
      ensures Popped(stack[492..]) == InitialRegisters(entry, stackPhys)
      ensures stack[507] == entry && stack[508] == 0x08 && stack[509] == 0x202 && stack[510] == stackPhys + 4096
      ensures stack[511] == 0x10 && forall j :: 492 <= j < 507 ==> stack[j] == 0
    {
      ghost var before := View();
      var task := AddTask();
      assert HoldsProc(ring, procs, 1);
      label Linked:
      task.rsp := PushFrame(stack, entry, stackPhys);
      ghost var linked := procs;
      procs := procs[1 := S.Proc(task.pid, task.rsp)];
      assert procs == S.After(before, S.Create(task.rsp)).procs;
      S.StaysSound(before, S.Create(task.rsp));
      forall i | 0 <= i < |ring|
        ensures HoldsProc(ring, procs, i)
      {
        if i != 1 { assert old@Linked(HoldsProc(ring, linked, i)); }
      }
    }

    /** The new node, linked in, without a stack pointer yet. */
    method AddTask() returns (task: Task)
      requires Valid() && currentProcess != null
      modifies this, ring
      ensures Valid() && currentProcess == old(currentProcess) && View() == S.After(old(View()), S.Create(0))
      ensures |ring| > 1 && ring[1] == task && fresh(task) && task.pageDirectory == old(currentProcess.pageDirectory)
    {
      ghost var before, was := View(), ring;
      task := new Task(nextPid, currentProcess.pageDirectory, null);
      LinkIn(task, ring[0]);
      nextPid := nextPid + 1;
      procs := S.After(before, S.Create(0)).procs;
      S.StaysSound(before, S.Create(0));
      forall i | 0 <= i < |ring|
        ensures HoldsProc(ring, procs, i)
      {
        if i != 1 { assert old(HoldsProc(was, procs, if i == 0 then 0 else i - 1)); }
      }
    }

    /** Puts a new node behind `processList`. */
    method LinkIn(task: Task, ghost head: Task)
      requires currentProcess != null && IsRing(ring) && cur < |ring| && currentProcess == ring[cur]
        && processList == ring[0]
      requires task !in ring && head == ring[0]
      modifies task`next, head`next, this`ring, this`cur
      ensures IsRing(ring) && ring == [old(ring)[0], task] + old(ring)[1..]
      ensures cur == if old(cur) == 0 then 0 else old(cur) + 1
    {
      ghost var was := ring;
      assert LinkedAt(was, 0);
      task.next := processList.next;
      processList.next := task;
      ring, cur := [was[0], task] + was[1..], if cur == 0 then 0 else cur + 1;
      forall i | 0 <= i < |ring|
        ensures LinkedAt(ring, i)
      {
        if i >= 2 { assert old(LinkedAt(was, i - 1)); }
      }
    }

    /** `schedule`: where the interrupted task stopped, for where the next one goes on. */
    method Schedule(currentRsp: Word) returns (rsp: Word)
      requires Valid()
      modifies this`currentProcess, this`cur, this`procs, ring
      ensures Valid() && (currentProcess == null <==> old(currentProcess) == null)
      ensures currentProcess == null ==> rsp == currentRsp
      ensures currentProcess != null ==>
                && View() == S.After(old(View()), S.Tick(currentRsp)).(uptime := uptime)
                && rsp == View().procs[cur].rsp
    {
      if currentProcess == null { return currentRsp; }
      ghost var before := View();
      assert LinkedAt(ring, cur);
      currentProcess.rsp := currentRsp;
      currentProcess := currentProcess.next;
      procs := S.After(before, S.Tick(currentRsp)).procs;
      cur := S.Next(before, cur);
      S.StaysSound(before, S.Tick(currentRsp));
      forall i | 0 <= i < |ring|
        ensures LinkedAt(ring, i) && HoldsProc(ring, procs, i)
      {
        assert old(LinkedAt(ring, i)) && old(HoldsProc(ring, procs, i));
      }
      assert HoldsProc(ring, procs, cur);
      return currentProcess.rsp;
    }

    /** `irq0_handler` */
    method Irq0(rsp: Word) returns (resume: Word)
      requires Valid()
      modifies this`uptime, this`currentProcess, this`cur, this`procs, ring
      ensures Valid() && uptime == old(uptime) + 10 && (currentProcess == null <==> old(currentProcess) == null)
      ensures currentProcess == null ==> resume == rsp
      ensures currentProcess != null ==> View() == S.After(old(View()), S.Tick(rsp)) && resume == View().procs[cur].rsp
    {
      uptime := uptime + 10;
      resume := Schedule(rsp);
    }
  }

  /** The registers a new thread starts with. */
  function InitialRegisters(entry: Word, stackPhys: Word): Registers
    requires stackPhys + 4096 < U64
  {
    Registers(0, 0, 0, 0, 0, 0, 0, 0, 0, 0, 0, 0, 0, 0, 0, entry, 0x08, 0x202, stackPhys + 4096, 0x10)
  }

  /** `*(--stack_top) = w` */
  method Push(stack: array<Word>, i: nat, w: Word) returns (top: nat)
    requires 0 < i <= stack.Length
    modifies stack
    ensures top == i - 1 && stack[top] == w
    ensures forall j :: 0 <= j < stack.Length && j != top ==> stack[j] == old(stack[j])
  {
    top := i - 1;
    stack[top] := w;
  }

  /** The twenty words pushed on a new stack. */
  method PushFrame(stack: array<Word>, entry: Word, stackPhys: Word) returns (rsp: Word)
    requires stackPhys % 4096 == 0 && stackPhys + 4096 < U64 && stack.Length == 512
    modifies stack
    ensures rsp == stackPhys + 4096 - 160 && Popped(stack[492..]) == InitialRegisters(entry, stackPhys)
    ensures stack[507] == entry && stack[508] == 0x08 && stack[509] == 0x202 && stack[510] == stackPhys + 4096
    ensures stack[511] == 0x10 && forall j :: 492 <= j < 507 ==> stack[j] == 0
  {
    var top := (stackPhys + 4096) - (stackPhys + 4096) % 16;
    var i := (top - stackPhys) / 8;
    assert i == 512;
    i := PushReturn(stack, i, entry, stackPhys);
    i := PushRegisters(stack, i);
    FrameWords(stack[492..], stackPhys, entry);
    return stackPhys + 8 * i;
  }

  /** What the interrupt return itself pops. */
  method PushReturn(stack: array<Word>, i0: nat, entry: Word, stackPhys: Word) returns (i: nat)
    requires i0 == stack.Length == 512 && stackPhys + 4096 < U64
    modifies stack
    ensures i == 507 && stack[507] == entry && stack[508] == 0x08 && stack[509] == 0x202
    ensures stack[510] == stackPhys + 4096 && stack[511] == 0x10
  {
    i := Push(stack, i0, 0x10);
    i := Push(stack, i, stackPhys + 4096);
    i := Push(stack, i, 0x202);
    i := Push(stack, i, 0x08);
    i := Push(stack, i, entry);
  }

  /** Zeros for the general registers. */
  method PushRegisters(stack: array<Word>, i0: nat) returns (i: nat)
    requires 15 <= i0 <= stack.Length
    modifies stack
    ensures i == i0 - 15
    ensures forall j :: 0 <= j < stack.Length ==> stack[j] == if i <= j < i0 then 0 else old(stack[j])
  {
    i := i0;
    i := Push(stack, i, 0); // r15
    i := Push(stack, i, 0); // r14
    i := Push(stack, i, 0); // r13
    i := Push(stack, i, 0); // r12
    i := Push(stack, i, 0); // r11
    i := Push(stack, i, 0); // r10
    i := Push(stack, i, 0); // r9
    i := Push(stack, i, 0); // r8
    i := Push(stack, i, 0); // rax
    i := Push(stack, i, 0); // rcx
    i := Push(stack, i, 0); // rdx
    i := Push(stack, i, 0); // rbx
    i := Push(stack, i, 0); // rbp
    i := Push(stack, i, 0); // rsi
    i := Push(stack, i, 0); // rdi
  }

  lemma FrameWords(w: seq<Word>, stackPhys: Word, entry: Word)
    requires |w| == 20 && stackPhys + 4096 < U64 && forall j :: 0 <= j < 15 ==> w[j] == 0
    requires w[15] == entry && w[16] == 0x08 && w[17] == 0x202 && w[18] == stackPhys + 4096 && w[19] == 0x10
    ensures Popped(w) == InitialRegisters(entry, stackPhys)
  {
  }
}
