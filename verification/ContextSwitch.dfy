/** The assembly task switch as a small register and stack machine. */
module ContextSwitch {

  /** The general registers, numbered in the order in which the switch pushes them:
      rax rbx rcx rdx rdi rsi r8 r9 r10 r11 r12 r13 r14 r15 rbp. They are popped in the opposite order. */
  const REGISTERS: nat := 15
  const RAX: nat := 0
  const RCX: nat := 2
  const FRAME: nat := 120
  const KERNEL_STACK_SIZE: nat := 0x1000

  /** Memory by word address; words never written are zero. */
  type Memory = map<nat, nat>

  function Read(mem: Memory, a: nat): nat {
    if a in mem then mem[a] else 0
  }

  /** `tcb_t`: [rsi] is `kernelTop`, [rdi+8] is `cr3` and [rsi+16] is `next`. */
  datatype Tcb = Tcb(kernelTop: nat, cr3: nat, next: nat)

  datatype Context = Context(regs: seq<nat>, rsp: nat, rip: nat)

  /** The register values stored in a frame whose lowest word is at `top`. */
  ghost function FrameRegs(mem: Memory, top: nat): (r: seq<nat>)
    ensures |r| == 15 && forall i :: 0 <= i < 15 ==> r[i] == Read(mem, top + 8 * (14 - i))
  {
    seq(15, i requires 0 <= i < 15 => Read(mem, top + 8 * (14 - i)))
  }

  /** What a switch to a task with saved stack pointer `top` loads. */
  ghost function Saved(mem: Memory, top: nat): Context {
    Context(FrameRegs(mem, top), top + FRAME + 8, Read(mem, top + FRAME))
  }

  datatype Snap = Snap(mem: Memory, regs: seq<nat>, rsp: nat, rip: nat, cr3: nat, tcbs: map<nat, Tcb>, current: nat)
  {
    ghost function Now(): Context {
      Context(regs, rsp, rip)
    }
  }

  ghost predicate SameOutside(m: Memory, m': Memory, lo: int, hi: int) {
    forall a: nat :: !(lo <= a < hi) ==> Read(m', a) == Read(m, a)
  }

  /** The effect of calling the switch with return address `ret` to go to task `next`. */
  ghost predicate Switches(s: Snap, t: Snap, next: nat, ret: nat) {
    && |s.regs| == 15 && s.rsp >= 128 && s.current in s.tcbs && next in s.tcbs
    && t.current == s.tcbs[s.current].next
    && t.tcbs == s.tcbs[s.current := s.tcbs[s.current].(kernelTop := s.rsp - 128)]
    && SameOutside(s.mem, t.mem, s.rsp - 128, s.rsp)
    && Saved(t.mem, s.rsp - 128) == Context(s.regs, s.rsp, ret)
    && t.Now() == Saved(t.mem, t.tcbs[next].kernelTop)
    && t.cr3 == s.tcbs[next].cr3
  }

  /** The context of a task that has not run yet. */
  ghost function Fresh(base: nat, main: nat): Context {
    Context(seq(15, _ => 0), base + KERNEL_STACK_SIZE + 8, main)
  }

  /** The effect of creating a task with a stack at `base` that begins in `main`. */
  ghost predicate Creates(s: Snap, t: Snap, task: nat, base: nat, main: nat) {
    && task !in s.tcbs && s.current in s.tcbs && t.current == s.current && t.Now() == s.Now() && t.cr3 == s.cr3
    && t.tcbs == s.tcbs[task := Tcb(base + KERNEL_STACK_SIZE - FRAME, s.tcbs[s.current].cr3, 0)]
    && SameOutside(s.mem, t.mem, base, base + KERNEL_STACK_SIZE + 8)
    && Saved(t.mem, t.tcbs[task].kernelTop) == Fresh(base, main)
  }

  /** The effect of putting a task into the list after the running one. */
  ghost predicate Links(s: Snap, t: Snap, task: nat) {
    && s.current in s.tcbs && task in s.tcbs && task != s.current
    && t == s.(tcbs := s.tcbs[s.current := s.tcbs[s.current].(next := task)]
                             [task := s.tcbs[task].(next := s.tcbs[s.current].next)])
  }

  class Machine {
    var mem: Memory
    var regs: seq<nat>
    var rsp: nat
    var rip: nat
    var cr3: nat
    var tcbs: map<nat, Tcb>
    var currentTask: nat

    ghost function Abs(): Snap
      reads this
    {
      Snap(mem, regs, rsp, rip, cr3, tcbs, currentTask)
    }

    method Push(v: nat)
      requires rsp >= 8
      modifies this`mem, this`rsp
      ensures rsp == old(rsp) - 8 && mem == old(mem)[rsp := v]
    {
      rsp := rsp - 8;
      mem := mem[rsp := v];
    }

    method Pop() returns (v: nat)
      modifies this`rsp
      ensures rsp == old(rsp) + 8 && v == Read(mem, old(rsp))
    {
      v := Read(mem, rsp);
      rsp := rsp + 8;
    }

    /** The fifteen pushes. */
    method PushRegisters()
      requires rsp >= FRAME && |regs| == 15
      modifies this`mem, this`rsp
      ensures rsp == old(rsp) - FRAME && SameOutside(old(mem), mem, rsp, old(rsp))
      ensures FrameRegs(mem, rsp) == regs
    {
      ghost var top := rsp;
      for i := 0 to REGISTERS
        invariant rsp == top - 8 * i && SameOutside(old(mem), mem, rsp, top)
        invariant forall j :: 0 <= j < i ==> Read(mem, top - 8 * (j + 1)) == regs[j]
      {
        Push(regs[i]);
      }
      assert FrameRegs(mem, rsp) == regs;
    }

    /** The fifteen pops. */
    method PopRegisters()
      requires |regs| == 15
      modifies this`rsp, this`regs
      ensures rsp == old(rsp) + FRAME && regs == FrameRegs(mem, old(rsp))
    {
      ghost var top := rsp;
      for i := REGISTERS downto 0
        invariant |regs| == 15 && rsp == top + 8 * (15 - i)
        invariant forall j :: i <= j < 15 ==> regs[j] == Read(mem, top + 8 * (14 - j))
      {
        var v := Pop();
        regs := regs[i := v];
      }
    }

    /** The call instruction and the pushes: the context of the caller is on its stack. */
    method CallAndSave(ret: nat)
      requires |regs| == 15 && rsp >= 128
      modifies this`mem, this`rsp
      ensures rsp == old(rsp) - 128 && SameOutside(old(mem), mem, rsp, old(rsp))
      ensures Saved(mem, rsp) == Context(regs, old(rsp), ret)
    {
      hide SameOutside, FrameRegs;
      ghost var m0, r0 := mem, rsp;
      Push(ret);
      CallPush(m0, r0, ret);
      ghost var m1 := mem;
      PushRegisters();
      OutsideChain(m0, m1, mem, r0 - 128, r0);
      OutsideAt(m1, mem, r0 - 128, r0 - 8, r0 - 8);
    }

    /** A call of `switch_to_task_asm`: rdi is the task to go to, rsi the one that is left. */
    method SwitchToTask(next: nat, ret: nat)
      requires |regs| == 15 && rsp >= 128 && currentTask in tcbs && next in tcbs
      modifies this
      ensures Switches(old(Abs()), Abs(), next, ret)
    {
      hide SameOutside, FrameRegs;
      CallAndSave(ret);
      // The successor of the task that is left becomes current.
      var left := currentTask;
      regs := regs[RAX := tcbs[left].next];
      currentTask := regs[RAX];
      // The stack of the task that is left.
      tcbs := tcbs[left := tcbs[left].(kernelTop := rsp)];
      // Stack and address space of the task to go to.
      rsp := tcbs[next].kernelTop;
      regs := regs[RAX := tcbs[next].cr3];
      regs := regs[RCX := cr3];
      if regs[RAX] != regs[RCX] {
        cr3 := regs[RAX];
      }
      PopRegisters();
      rip := Pop();
    }

    /** `process_init_stack` and `process_init_info`: a zeroed stack with `main` above it. */
    method CreateProcess(task: nat, base: nat, main: nat)
      requires task !in tcbs && currentTask in tcbs
      modifies this`mem, this`tcbs
      ensures Creates(old(Abs()), Abs(), task, base, main)
    {
      hide SameOutside, Saved;
      ghost var m0 := mem;
      ClearStack(base);
      ghost var m1 := mem;
      var top := base + KERNEL_STACK_SIZE;
      mem := mem[top := main];
      top := top - 120;
      tcbs := tcbs[task := Tcb(top, tcbs[currentTask].cr3, 0)];
      NewFrame(m0, m1, base, main);
    }

    /** `add_process` */
    method AddProcess(task: nat)
      requires currentTask in tcbs && task in tcbs && task != currentTask
      modifies this`tcbs
      ensures Links(old(Abs()), Abs(), task)
    {
      var tmp := tcbs[currentTask].next;
      tcbs := tcbs[currentTask := tcbs[currentTask].(next := task)];
      tcbs := tcbs[task := tcbs[task].(next := tmp)];
    }

    /** The `memset` of the stack. */
    method ClearStack(base: nat)
      modifies this`mem
      ensures SameOutside(old(mem), mem, base, base + KERNEL_STACK_SIZE)
      ensures forall k :: 0 <= k < 512 ==> Read(mem, base + 8 * k) == 0
    {
      for k := 0 to 512
        invariant SameOutside(old(mem), mem, base, base + KERNEL_STACK_SIZE)
        invariant forall j :: 0 <= j < k ==> Read(mem, base + 8 * j) == 0
      {
        mem := mem[base + 8 * k := 0];
      }
    }
  }

  /** Fifteen zero words below `main` are the frame of a task about to start. */
  lemma NewFrame(m: Memory, m1: Memory, base: nat, main: nat)
    requires SameOutside(m, m1, base, base + KERNEL_STACK_SIZE)
    requires forall k :: 0 <= k < 512 ==> Read(m1, base + 8 * k) == 0
    ensures var m2 := m1[base + KERNEL_STACK_SIZE := main];
            && SameOutside(m, m2, base, base + KERNEL_STACK_SIZE + 8)
            && Saved(m2, base + KERNEL_STACK_SIZE - FRAME) == Fresh(base, main)
  {
    var m2, top := m1[base + KERNEL_STACK_SIZE := main], base + KERNEL_STACK_SIZE - FRAME;
    var r := FrameRegs(m2, top);
    forall i | 0 <= i < 15
      ensures r[i] == 0
    {
      assert top + 8 * (14 - i) == base + 8 * (511 - i);
      assert Read(m1, base + 8 * (511 - i)) == 0;
    }
    assert r == seq(15, _ => 0);
  }

  lemma CallPush(m: Memory, rsp: nat, ret: nat)
    requires rsp >= 128
    ensures SameOutside(m, m[rsp - 8 := ret], rsp - 128, rsp) && Read(m[rsp - 8 := ret], rsp - 8) == ret
  {
  }

  lemma OutsideChain(m: Memory, m1: Memory, m2: Memory, lo: nat, hi: nat)
    requires lo + 8 <= hi && SameOutside(m, m1, lo, hi) && SameOutside(m1, m2, lo, hi - 8)
    ensures SameOutside(m, m2, lo, hi)
  {
  }

  lemma OutsideAt(m: Memory, m': Memory, lo: nat, hi: nat, a: nat)
    requires SameOutside(m, m', lo, hi) && !(lo <= a < hi)
    ensures Read(m', a) == Read(m, a)
  {
  }

  // ----- systems of tasks -----

  /** The stack of a task lies between `lo` and `hi`. */
  datatype Stack = Stack(lo: nat, hi: nat)

  type Stacks = map<nat, Stack>

  ghost predicate DisjointStacks(stacks: Stacks) {
    forall a, b :: a in stacks && b in stacks && a != b ==> stacks[a].hi <= stacks[b].lo || stacks[b].hi <= stacks[a].lo
  }

  /** The machine and the stacks of the tasks created so far. */
  datatype System = System(cpu: Snap, stacks: Stacks)

  /** The frame of a task that is not running lies in its own stack. */
  ghost predicate Parked(s: System, t: nat) {
    && t in s.cpu.tcbs && t in s.stacks
    && s.stacks[t].lo <= s.cpu.tcbs[t].kernelTop && s.cpu.tcbs[t].kernelTop + FRAME + 8 <= s.stacks[t].hi
  }

  ghost predicate Placed(s: System) {
    && s.cpu.tcbs.Keys == s.stacks.Keys && DisjointStacks(s.stacks) && s.cpu.current in s.cpu.tcbs
    && forall t :: t in s.cpu.tcbs && t != s.cpu.current ==> Parked(s, t)
  }

  /** The running task computes: it may change its registers and its own stack. */
  ghost predicate Computes(s: System, t: System) {
    && s.cpu.current in s.stacks && t.stacks == s.stacks
    && t.cpu.tcbs == s.cpu.tcbs && t.cpu.current == s.cpu.current
    && SameOutside(s.cpu.mem, t.cpu.mem, s.stacks[s.cpu.current].lo, s.stacks[s.cpu.current].hi)
  }

  /** The running task calls the switch with room for a frame on its stack; the scheduler passes its successor. */
  ghost predicate GoesTo(s: System, t: System, next: nat, ret: nat) {
    && Switches(s.cpu, t.cpu, next, ret) && t.stacks == s.stacks
    && s.cpu.current in s.stacks && next == s.cpu.tcbs[s.cpu.current].next
    && s.stacks[s.cpu.current].lo + 128 <= s.cpu.rsp <= s.stacks[s.cpu.current].hi
  }

  /** The running task creates another one, whose stack is memory that no stack uses. */
  ghost predicate Spawns(s: System, t: System, task: nat, base: nat, main: nat) {
    && Creates(s.cpu, t.cpu, task, base, main)
    && t.stacks == s.stacks[task := Stack(base, base + KERNEL_STACK_SIZE + 8)]
    && forall u :: u in s.stacks ==> s.stacks[u].hi <= base || base + KERNEL_STACK_SIZE + 8 <= s.stacks[u].lo
  }

  datatype Step = Compute | Switch(next: nat, ret: nat) | Create(task: nat, base: nat, main: nat) | Link(task: nat)

  ghost predicate Moves(s: System, t: System, step: Step) {
    match step
    case Compute => Computes(s, t)
    case Switch(next, ret) => GoesTo(s, t, next, ret)
    case Create(task, base, main) => Spawns(s, t, task, base, main)
    case Link(task) => Links(s.cpu, t.cpu, task) && t.stacks == s.stacks
  }

  ghost predicate Run(states: seq<System>, steps: seq<Step>) {
    && |states| == |steps| + 1 && Placed(states[0])
    && forall k :: 0 <= k < |steps| ==> Moves(states[k], states[k + 1], steps[k])
  }

  lemma PlacedStep(s: System, t: System, step: Step)
    requires Placed(s) && Moves(s, t, step)
    ensures Placed(t)
  {
    hide Saved, SameOutside, Placed, Spawns, Links;
    match step
    case Compute => PlacedSame(s, t, step);
    case Switch(next, ret) => PlacedSame(s, t, step);
    case Create(task, base, main) => PlacedSpawn(s, t, task, base, main);
    case Link(task) => PlacedLink(s, t, task);
  }

  lemma PlacedSame(s: System, t: System, step: Step)
    requires Placed(s) && Moves(s, t, step) && (step.Compute? || step.Switch?)
    ensures Placed(t)
  {
    hide Saved, SameOutside, Spawns, Links, DisjointStacks;
    forall u | u in t.cpu.tcbs && u != t.cpu.current
      ensures Parked(t, u)
    {
      if u != s.cpu.current {
        assert Parked(s, u);
      }
    }
  }

  lemma PlacedLink(s: System, t: System, task: nat)
    requires Placed(s) && Links(s.cpu, t.cpu, task) && t.stacks == s.stacks
    ensures Placed(t)
  {
    hide DisjointStacks;
    forall u | u in t.cpu.tcbs && u != t.cpu.current
      ensures Parked(t, u)
    {
      assert Parked(s, u);
    }
  }

  lemma DisjointAdd(stacks: Stacks, task: nat, st: Stack)
    requires DisjointStacks(stacks) && task !in stacks
    requires forall u :: u in stacks ==> stacks[u].hi <= st.lo || st.hi <= stacks[u].lo
    ensures DisjointStacks(stacks[task := st])
  {
  }

  lemma PlacedSpawn(s: System, t: System, task: nat, base: nat, main: nat)
    requires Placed(s) && Spawns(s, t, task, base, main)
    ensures Placed(t)
  {
    hide Saved, SameOutside, Fresh, DisjointStacks;
    DisjointAdd(s.stacks, task, Stack(base, base + KERNEL_STACK_SIZE + 8));
    forall u | u in t.cpu.tcbs && u != t.cpu.current
      ensures Parked(t, u)
    {
      if u in s.cpu.tcbs && u != s.cpu.current {
        assert Parked(s, u);
      }
    }
  }

  /** A frame outside the changed part of memory is still there. */
  lemma SavedKept(m: Memory, m': Memory, lo: int, hi: int, top: nat)
    requires SameOutside(m, m', lo, hi) && (top + FRAME + 8 <= lo || hi <= top)
    ensures Saved(m', top) == Saved(m, top)
  {
    var a, b := FrameRegs(m, top), FrameRegs(m', top);
    forall i | 0 <= i < 15
      ensures a[i] == b[i]
    {
      assert Read(m', top + 8 * (14 - i)) == Read(m, top + 8 * (14 - i));
    }
    assert a == b;
    assert Read(m', top + FRAME) == Read(m, top + FRAME);
  }

  lemma ParkedApart(s: System, u: nat)
    requires Placed(s) && u in s.cpu.tcbs && u != s.cpu.current
    ensures Parked(s, u) && s.cpu.current in s.stacks
    ensures s.stacks[u].hi <= s.stacks[s.cpu.current].lo || s.stacks[s.cpu.current].hi <= s.stacks[u].lo
  {
  }

  /** No step changes the saved context of a task that is not running; only its place in the list can change. */
  lemma ContextKept(s: System, t: System, step: Step, u: nat)
    requires Placed(s) && Moves(s, t, step) && u in s.cpu.tcbs && u != s.cpu.current
    ensures u in t.cpu.tcbs && t.cpu.tcbs[u] == s.cpu.tcbs[u].(next := t.cpu.tcbs[u].next)
    ensures Saved(t.cpu.mem, t.cpu.tcbs[u].kernelTop) == Saved(s.cpu.mem, s.cpu.tcbs[u].kernelTop)
  {
    hide Saved, SameOutside, Placed;
    ParkedApart(s, u);
    var c, top := s.stacks[s.cpu.current], s.cpu.tcbs[u].kernelTop;
    match step
    case Compute => SavedKept(s.cpu.mem, t.cpu.mem, c.lo, c.hi, top);
    case Switch(next, ret) => SavedKept(s.cpu.mem, t.cpu.mem, s.cpu.rsp - 128, s.cpu.rsp, top);
    case Create(task, base, main) => SavedKept(s.cpu.mem, t.cpu.mem, base, base + KERNEL_STACK_SIZE + 8, top);
    case Link(task) =>
  }

  /** Everything is in place in every state of a run. */
  lemma {:induction false} PlacedAlways(states: seq<System>, steps: seq<Step>, k: nat)
    requires Run(states, steps) && k < |states|
    ensures Placed(states[k])
  {
    hide Placed, Moves;
    if k > 0 {
      PlacedAlways(states, steps, k - 1);
      PlacedStep(states[k - 1], states[k], steps[k - 1]);
    }
  }

  /** While a task is not running, its saved context stays as it is, whatever the other tasks compute, create and
      switch. */
  lemma {:induction false} ContextStays(states: seq<System>, steps: seq<Step>, i: nat, k: nat, task: nat)
    requires Run(states, steps) && i <= k < |states| && task in states[i].cpu.tcbs
    requires forall j :: i <= j < k ==> states[j].cpu.current != task
    ensures task in states[k].cpu.tcbs
    ensures Saved(states[k].cpu.mem, states[k].cpu.tcbs[task].kernelTop) ==
            Saved(states[i].cpu.mem, states[i].cpu.tcbs[task].kernelTop)
    decreases k
  {
    hide Saved, Moves, Placed;
    if k > i {
      ContextStays(states, steps, i, k - 1, task);
      PlacedAlways(states, steps, k - 1);
      assert Moves(states[k - 1], states[k], steps[k - 1]);
      ContextKept(states[k - 1], states[k], steps[k - 1], task);
    }
  }

  /** Switching to a task that is not running loads its saved context. */
  lemma SwitchLoads(s: System, t: System, step: Step)
    requires Placed(s) && Moves(s, t, step) && step.Switch? && step.next != s.cpu.current
    ensures step.next in s.cpu.tcbs && t.cpu.current == step.next
    ensures t.cpu.Now() == Saved(s.cpu.mem, s.cpu.tcbs[step.next].kernelTop)
  {
    hide Saved, SameOutside;
    ContextKept(s, t, step, step.next);
  }

  /** Leaving a task stores its context. */
  lemma SwitchSaves(s: System, t: System, step: Step)
    requires Moves(s, t, step) && step.Switch?
    ensures s.cpu.current in t.cpu.tcbs
    ensures Saved(t.cpu.mem, t.cpu.tcbs[s.cpu.current].kernelTop) == Context(s.cpu.regs, s.cpu.rsp, step.ret)
    ensures step.next == s.cpu.current ==>
            t.cpu.current == step.next && t.cpu.Now() == Context(s.cpu.regs, s.cpu.rsp, step.ret)
  {
  }

  /** A task that is switched out in step `i` and next switched in in step `j` continues with the same registers,
      stack pointer and return address, whatever the other tasks did in between. */
  lemma Resumes(states: seq<System>, steps: seq<Step>, i: nat, j: nat, task: nat)
    requires Run(states, steps) && i <= j < |steps|
    requires steps[i].Switch? && states[i].cpu.current == task
    requires steps[j].Switch? && steps[j].next == task
    requires forall k :: i < k <= j ==> states[k].cpu.current != task
    ensures states[j + 1].cpu.current == task
    ensures states[j + 1].cpu.Now() == Context(states[i].cpu.regs, states[i].cpu.rsp, steps[i].ret)
  {
    hide Saved, Moves, Placed;
    assert Moves(states[i], states[i + 1], steps[i]);
    assert Moves(states[j], states[j + 1], steps[j]);
    SwitchSaves(states[i], states[i + 1], steps[i]);
    if i < j {
      ContextStays(states, steps, i + 1, j, task);
      PlacedAlways(states, steps, j);
      SwitchLoads(states[j], states[j + 1], steps[j]);
    }
  }

  /** A task that is created in step `i` and first switched to in step `j` starts in its `main` with all registers
      zero and its stack pointer at the top of its stack. */
  lemma FirstRun(states: seq<System>, steps: seq<Step>, i: nat, j: nat)
    requires Run(states, steps) && i < j < |steps| && steps[i].Create?
    requires steps[j].Switch? && steps[j].next == steps[i].task
    requires forall k :: i < k <= j ==> states[k].cpu.current != steps[i].task
    ensures states[j + 1].cpu.current == steps[i].task
    ensures states[j + 1].cpu.Now() == Fresh(steps[i].base, steps[i].main)
  {
    hide Saved, Moves, Placed;
    assert Moves(states[i], states[i + 1], steps[i]);
    assert Moves(states[j], states[j + 1], steps[j]);
    CreateSaves(states[i], states[i + 1], steps[i]);
    ContextStays(states, steps, i + 1, j, steps[i].task);
    PlacedAlways(states, steps, j);
    SwitchLoads(states[j], states[j + 1], steps[j]);
  }

  lemma CreateSaves(s: System, t: System, step: Step)
    requires Moves(s, t, step) && step.Create?
    ensures step.task in t.cpu.tcbs
    ensures Saved(t.cpu.mem, t.cpu.tcbs[step.task].kernelTop) == Fresh(step.base, step.main)
  {
  }

  /** Creating a task, putting it into the list and switching: the machine is in its `main`, and what was running before
      waits behind it in the list. */
  method StartTask(m: Machine, task: nat, base: nat, main: nat, ret: nat)
    requires |m.regs| == 15 && m.rsp >= 128 && m.currentTask in m.tcbs && task !in m.tcbs
    requires m.rsp <= base || base + KERNEL_STACK_SIZE + 8 <= m.rsp - 128
    modifies m
    ensures m.currentTask == task && m.Abs().Now() == Fresh(base, main)
    ensures m.tcbs.Keys == old(m.tcbs).Keys + {task} && m.tcbs[task].next == old(m.tcbs[m.currentTask].next)
    ensures Saved(m.mem, m.tcbs[old(m.currentTask)].kernelTop) == Context(old(m.regs), old(m.rsp), ret)
  {
    hide Saved, SameOutside;
    m.CreateProcess(task, base, main);
    m.AddProcess(task);
    ghost var mem0 := m.mem;
    m.SwitchToTask(task, ret);
    SavedKept(mem0, m.mem, old(m.rsp) - 128, old(m.rsp), base + KERNEL_STACK_SIZE - FRAME);
  }
}
