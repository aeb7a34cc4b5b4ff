/** Round-robin scheduling over a circular list of tasks. */
module Scheduler {

  const QUANTUM: nat := 5

  datatype Status = READY | WAITING | RUNNING

  /** `tcb_t`, without the saved stack pointer and page directory. */
  class Task {
    var next: Task?
    var status: Status
    var timeSlice: nat

    /** The scheduling fields that `process_init_info` sets. */
    constructor ()
      ensures status == READY && timeSlice == QUANTUM && next == null
    {
      next, status, timeSlice := null, READY, QUANTUM;
    }
  }

  /** The order in which tasks will run, current one first, and the ticks left to the current one. */
  datatype Plan<T> = Plan(ring: seq<T>, slice: nat)

  function Rotated<T>(s: seq<T>): seq<T>
    requires |s| > 0
  {
    s[1..] + s[..1]
  }

  function Ticked<T>(p: Plan<T>): Plan<T>
    requires |p.ring| > 0
  {
    if p.slice == 0 then Plan(Rotated(p.ring), QUANTUM) else p.(slice := p.slice - 1)
  }

  function Inserted<T>(p: Plan<T>, t: T): Plan<T>
    requires |p.ring| > 0
  {
    Plan([p.ring[0], t] + p.ring[1..], p.slice)
  }

  class Sched {
    var current: Task
    /** The tasks in list order, starting with the current one. */
    ghost var ring: seq<Task>

    /** The list is one cycle through all tasks. */
    ghost predicate Cycle()
      reads this, ring
    {
      && |ring| > 0 && ring[0] == current
      && (forall i, j :: 0 <= i < j < |ring| ==> ring[i] != ring[j])
      && (forall i :: 0 <= i < |ring| - 1 ==> ring[i].next == ring[i + 1])
      && ring[|ring| - 1].next == ring[0]
    }

    /** Only the current task is running, the others are ready and have a full slice. */
    ghost predicate Valid()
      reads this, ring
    {
      && Cycle()
      && current.status == RUNNING && current.timeSlice <= QUANTUM
      && (forall i :: 1 <= i < |ring| ==> ring[i].status == READY && ring[i].timeSlice == QUANTUM)
    }

    ghost function Abs(): Plan<Task>
      reads this, current
    {
      Plan(ring, current.timeSlice)
    }

    /** `init_multitasking` */
    constructor ()
      ensures Valid() && fresh(current) && ring == [current] && Abs() == Plan([current], QUANTUM)
    {
      var t := new Task();
      current, ring := t, [t];
      new;
      current.next := current;
      current.status := RUNNING;
      current.timeSlice := QUANTUM;
    }

    /** `add_process`: the new task will run next. */
    method AddProcess(process: Task)
      requires Valid() && process !in ring && process.status == READY && process.timeSlice == QUANTUM
      modifies this, current, process
      ensures Valid() && current == old(current) && Abs() == Inserted(old(Abs()), process)
    {
      var tmp := current.next;
      current.next := process;
      process.next := tmp;
      ring := [current, process] + ring[1..];
    }

    /** Where the search stops: the first ready task after the current one, or the current one itself. */
    ghost predicate Picked(k: nat)
      requires Cycle()
      reads this, ring
    {
      && 1 <= k <= |ring|
      && (forall i :: 1 <= i < k ==> ring[i].status != READY)
      && (k < |ring| ==> ring[k].status == READY)
    }

    /** `get_next_task`, for any statuses: it goes round the list at most once. */
    method GetNextTask() returns (t: Task, ghost k: nat)
      requires Cycle()
      modifies ring
      ensures Cycle() && ring == old(ring) && old(Picked(k)) && t == (if k < |ring| then ring[k] else current)
      ensures k < |ring| ==> t.status == RUNNING && current.status == READY
      ensures k == |ring| && old(current.status) != READY ==> t.status == old(t.status)
      ensures forall i :: 1 <= i < |ring| && i != k ==> ring[i].status == old(ring[i].status)
      ensures forall i :: 0 <= i < |ring| ==> ring[i].timeSlice == old(ring[i].timeSlice)
    {
      assert current.next == (if 1 < |ring| then ring[1] else ring[0]);
      t := current.next;
      k := 1;
      while t.status != READY
        invariant 1 <= k <= |ring| && t == (if k < |ring| then ring[k] else current)
        invariant forall i :: 1 <= i < k ==> ring[i].status != READY
        decreases |ring| - k
      {
        if t == current {
          return;
        }
        assert t.next == (if k + 1 < |ring| then ring[k + 1] else ring[0]);
        t := t.next;
        k := k + 1;
      }
      current.status := READY;
      t.status := RUNNING;
    }

    /** `schedule` with the assembly switch, which installs the task after the current one on its own: that is the
        task the search has picked. */
    method Schedule()
      requires Valid() && current.timeSlice == QUANTUM
      modifies this, ring
      ensures Valid() && Abs() == Plan(Rotated(old(ring)), QUANTUM)
    {
      assert |ring| > 1 ==> ring[1].status == READY;
      var t, k := GetNextTask();
      assert current.next == (if 1 < |ring| then ring[1] else ring[0]);
      var installed := current.next;
      assert k == 1 && t == installed;
      current := installed;
      ring := Rotated(ring);
    }

    /** `timer_irq_handler` */
    method Tick()
      requires Valid()
      modifies this, ring
      ensures Valid() && Abs() == Ticked(old(Abs()))
    {
      if current.timeSlice == 0 {
        current.timeSlice := QUANTUM;
        Schedule();
      } else {
        current.timeSlice := current.timeSlice - 1;
      }
    }

    /** Any run of timer ticks and task creations keeps the list one cycle with one running task, and is a run of the
        plan with the same ticks and with the new tasks joining in between. */
    method Drive(events: seq<Event>) returns (ghost done: seq<PlanEvent<Task>>)
      requires Valid()
      modifies this, ring
      ensures Valid() && |done| == |events|
      ensures forall i :: 0 <= i < |events| ==> (done[i].Elapse? <==> events[i].TimerTick?)
      ensures |old(ring)| > 0 && Abs() == Played(old(Abs()), done)
    {
      hide Sched.Cycle, Sched.Valid, Happen;
      CycleStarts();
      ghost var p := Abs();
      done := [];
      for i := 0 to |events|
        invariant Valid() && |done| == i && |p.ring| > 0 && Abs() == Played(p, done)
        invariant forall k :: 0 <= k < |ring| ==> ring[k] in old(ring) || fresh(ring[k])
        invariant forall j :: 0 <= j < i ==> (done[j].Elapse? <==> events[j].TimerTick?)
      {
        CycleStarts();
        ghost var e := Step(events[i]);
        assert (done + [e])[..i] == done;
        done := done + [e];
      }
    }

    method Step(event: Event) returns (ghost e: PlanEvent<Task>)
      requires Valid()
      modifies this, ring
      ensures Valid() && (e.Elapse? <==> event.TimerTick?)
      ensures forall k :: 0 <= k < |ring| ==> ring[k] in old(ring) || fresh(ring[k])
      ensures |old(ring)| > 0 && Abs() == Happen(old(Abs()), e)
    {
      match event
      case TimerTick =>
        Tick();
        assert ring == old(ring) || ring == Rotated(old(ring));
        e := Elapse;
      case CreateTask =>
        var t := new Task();
        AddProcess(t);
        e := Join(t);
    }

    lemma CycleStarts()
      requires Valid()
      ensures |ring| > 0 && ring[0] == current
    {
    }
  }

  datatype Event = TimerTick | CreateTask

  datatype PlanEvent<T> = Elapse | Join(task: T)

  // ----- fairness -----

  function TickedTimes<T>(p: Plan<T>, n: nat): (r: Plan<T>)
    requires |p.ring| > 0
    ensures |r.ring| == |p.ring|
  {
    if n == 0 then p else Ticked(TickedTimes(p, n - 1))
  }

  /** How many of the next `n` ticks find task `t` running. */
  function TicksOf<T(==)>(p: Plan<T>, n: nat, t: T): nat
    requires |p.ring| > 0
  {
    if n == 0 then 0
    else TicksOf(p, n - 1, t) + (if TickedTimes(p, n - 1).ring[0] == t then 1 else 0)
  }

  lemma {:induction false} TimesAdd<T>(p: Plan<T>, a: nat, b: nat)
    requires |p.ring| > 0
    ensures TickedTimes(p, a + b) == TickedTimes(TickedTimes(p, a), b)
    decreases b
  {
    if b > 0 {
      TimesAdd(p, a, b - 1);
    }
  }

  lemma {:induction false} TicksAdd<T>(p: Plan<T>, a: nat, b: nat, t: T)
    requires |p.ring| > 0
    ensures TicksOf(p, a + b, t) == TicksOf(p, a, t) + TicksOf(TickedTimes(p, a), b, t)
    decreases b
  {
    if b > 0 {
      TicksAdd(p, a, b - 1, t);
      TimesAdd(p, a, b - 1);
    }
  }

  /** Until its slice is used up, the current task stays. */
  lemma {:induction false} WithinSlice<T>(p: Plan<T>, n: nat, t: T)
    requires |p.ring| > 0 && n <= p.slice
    ensures TickedTimes(p, n) == p.(slice := p.slice - n)
    ensures TicksOf(p, n, t) == if p.ring[0] == t then n else 0
  {
    if n > 0 {
      WithinSlice(p, n - 1, t);
    }
  }

  /** One whole slice: the current task runs for the ticks it had left and one more, then the next one starts. */
  lemma WholeSlice<T>(p: Plan<T>, t: T)
    requires |p.ring| > 0
    ensures TickedTimes(p, p.slice + 1) == Plan(Rotated(p.ring), QUANTUM)
    ensures TicksOf(p, p.slice + 1, t) == if p.ring[0] == t then p.slice + 1 else 0
  {
    WithinSlice(p, p.slice, t);
  }

  lemma NoTicks<T>(p: Plan<T>, t: T)
    requires |p.ring| > 0
    ensures TickedTimes(p, 0) == p && TicksOf(p, 0, t) == 0
  {
  }

  /** After `k` whole slices the first `k` tasks have had one slice each. */
  lemma {:induction false} WholeSlices<T>(p: Plan<T>, k: nat, t: T)
    requires |p.ring| > 0 && p.slice == QUANTUM && k <= |p.ring|
    requires forall i, j :: 0 <= i < j < |p.ring| ==> p.ring[i] != p.ring[j]
    ensures TickedTimes(p, (QUANTUM + 1) * k) == Plan(p.ring[k..] + p.ring[..k], QUANTUM)
    ensures TicksOf(p, (QUANTUM + 1) * k, t) == if t in p.ring[..k] then QUANTUM + 1 else 0
  {
    hide Ticked, TickedTimes, TicksOf;
    if k == 0 {
      NoTicks(p, t);
      assert p.ring[0..] + p.ring[..0] == p.ring;
    } else {
      var n := (QUANTUM + 1) * (k - 1);
      WholeSlices(p, k - 1, t);
      var q := TickedTimes(p, n);
      WholeSlice(q, t);
      TimesAdd(p, n, QUANTUM + 1);
      TicksAdd(p, n, QUANTUM + 1, t);
      assert q.ring[0] == p.ring[k - 1];
      assert Rotated(q.ring) == p.ring[k..] + p.ring[..k];
      assert p.ring[..k] == p.ring[..k - 1] + [p.ring[k - 1]];
    }
  }

  /** Round robin: from the start of a slice, one round gives every task exactly one full slice and ends where it
      began. */
  lemma RoundRobin<T>(p: Plan<T>, t: T)
    requires |p.ring| > 0 && p.slice == QUANTUM
    requires forall i, j :: 0 <= i < j < |p.ring| ==> p.ring[i] != p.ring[j]
    ensures TickedTimes(p, (QUANTUM + 1) * |p.ring|) == p
    ensures TicksOf(p, (QUANTUM + 1) * |p.ring|, t) == if t in p.ring then QUANTUM + 1 else 0
  {
    WholeSlices(p, |p.ring|, t);
    assert p.ring[|p.ring|..] + p.ring[..|p.ring|] == p.ring;
    assert p.ring[..|p.ring|] == p.ring;
  }

  /** Ticks until the task at place `k` of the ring starts to run. */
  function Wait<T>(p: Plan<T>, k: nat): nat
    requires k < |p.ring|
  {
    if k == 0 then 0 else p.slice + 1 + (QUANTUM + 1) * (k - 1)
  }

  /** A waiting task starts after exactly `Wait` ticks and not before. */
  lemma WaitIsExact<T>(p: Plan<T>, k: nat)
    requires 0 < k < |p.ring|
    requires forall i, j :: 0 <= i < j < |p.ring| ==> p.ring[i] != p.ring[j]
    ensures TickedTimes(p, Wait(p, k)).ring[0] == p.ring[k]
    ensures TicksOf(p, Wait(p, k), p.ring[k]) == 0
  {
    hide Ticked, TickedTimes, TicksOf;
    var t, n, m := p.ring[k], p.slice + 1, (QUANTUM + 1) * (k - 1);
    WholeSlice(p, t);
    var q := TickedTimes(p, n);
    RotatedAt(p.ring, k - 1);
    RotatedDistinct(p.ring);
    WholeSlices(q, k - 1, t);
    TimesAdd(p, n, m);
    TicksAdd(p, n, m, t);
  }

  lemma RotatedAt<T>(s: seq<T>, i: nat)
    requires i < |s| - 1
    ensures |Rotated(s)| == |s| && Rotated(s)[i] == s[i + 1]
  {
  }

  lemma RotatedDistinct<T>(s: seq<T>)
    requires |s| > 0 && forall i, j :: 0 <= i < j < |s| ==> s[i] != s[j]
    ensures forall i, j :: 0 <= i < j < |s| ==> Rotated(s)[i] != Rotated(s)[j]
  {
  }

  /** An insertion delays every other waiting task by one full slice. */
  lemma InsertionDelay<T>(p: Plan<T>, t: T, k: nat)
    requires 0 < k < |p.ring|
    ensures Inserted(p, t).ring[k + 1] == p.ring[k]
    ensures Wait(Inserted(p, t), k + 1) == Wait(p, k) + QUANTUM + 1
    ensures Inserted(p, t).ring[1] == t && Wait(Inserted(p, t), 1) == p.slice + 1
  {
  }

  // ----- fairness while tasks are being created -----

  /** Ticks and insertions from the first to the last. */
  function Played<T>(p: Plan<T>, es: seq<PlanEvent<T>>): (r: Plan<T>)
    requires |p.ring| > 0
    ensures |r.ring| > 0
  {
    if es == [] then p else Happen(Played(p, es[..|es| - 1]), es[|es| - 1])
  }

  function Happen<T>(p: Plan<T>, e: PlanEvent<T>): (r: Plan<T>)
    requires |p.ring| > 0
    ensures |r.ring| > 0
  {
    match e
    case Elapse => Ticked(p)
    case Join(t) => Inserted(p, t)
  }

  lemma {:induction false} PlayedFirst<T>(p: Plan<T>, e: PlanEvent<T>, es: seq<PlanEvent<T>>)
    requires |p.ring| > 0
    ensures Played(p, [e] + es) == Played(Happen(p, e), es)
    decreases |es|
  {
    if es == [] {
      assert [e] + es == [e];
      assert [e][..0] == [];
      assert Played(p, []) == p;
    } else {
      var m := |es| - 1;
      PlayedFirst(p, e, es[..m]);
      assert ([e] + es)[..|es|] == [e] + es[..m];
    }
  }

  function Elapsed<T>(es: seq<PlanEvent<T>>): nat {
    if es == [] then 0 else (if es[0].Elapse? then 1 else 0) + Elapsed(es[1..])
  }

  function Joined<T>(es: seq<PlanEvent<T>>): nat {
    if es == [] then 0 else (if es[0].Elapse? then 0 else 1) + Joined(es[1..])
  }

  /** A tick brings every waiting task one tick closer; an insertion puts it back by one full slice. */
  lemma OneEvent<T>(p: Plan<T>, k: nat, e: PlanEvent<T>) returns (k': nat)
    requires 0 < k < |p.ring|
    ensures k' < |Happen(p, e).ring| && Happen(p, e).ring[k'] == p.ring[k]
    ensures Wait(Happen(p, e), k') == if e.Elapse? then Wait(p, k) - 1 else Wait(p, k) + QUANTUM + 1
  {
    k' := if e.Join? then k + 1 else if p.slice == 0 then k - 1 else k;
    if e.Elapse? && p.slice == 0 {
      RotatedAt(p.ring, k - 1);
    }
  }

  /** Whatever tasks are created in the meantime, a waiting task has run by the time that as many ticks have passed
      as it had to wait at first and one full slice more for each task created. */
  lemma {:induction false} BoundedWait<T>(p: Plan<T>, k: nat, es: seq<PlanEvent<T>>) returns (m: nat)
    requires k < |p.ring| && Elapsed(es) >= Wait(p, k) + (QUANTUM + 1) * Joined(es)
    ensures m <= |es| && Played(p, es[..m]).ring[0] == p.ring[k]
    decreases |es|
  {
    hide Happen;
    if k == 0 {
      m := 0;
      assert Played(p, es[..0]) == p;
    } else {
      var e, rest := es[0], es[1..];
      var k' := OneEvent(p, k, e);
      var n := BoundedWait(Happen(p, e), k', rest);
      m := n + 1;
      PlayedFirst(p, e, rest[..n]);
      assert es[..m] == [e] + rest[..n];
    }
  }
}
