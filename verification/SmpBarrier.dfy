/** Start-up of the application processors: a spinlock around a shared counter and a boot processor that waits
    for the counter to reach zero. Every step below is one atomic action of one processor. */
module SmpBarrier {

  /** Where an application processor is in `ap_entry_point`. */
  datatype Place =
    | Parked                 // goto_address not yet written
    | Spinning               // in lock()
    | Locked                 // lock taken, counter not yet read
    | Loaded(value: int)     // counter read, not yet written back
    | Stored                 // counter written, lock still held
    | Idle                   // lock released

  /** The boot processor starts processors 0 .. n in order, then waits. */
  datatype Boot = Starting(next: nat) | Waiting | Through

  datatype State = State(flag: bool, apDone: int, places: seq<Place>, boot: Boot)

  datatype Step = Start | SeeZero | SpinBoot | TestAndSet(i: nat) | Load(i: nat) | Store(i: nat) | Clear(i: nat)

  predicate Holds(p: Place) {
    p.Locked? || p.Loaded? || p.Stored?
  }

  predicate Counted(p: Place) {
    p.Stored? || p.Idle?
  }

  /** Processors that have not decremented the counter yet. */
  function Outstanding(places: seq<Place>): nat {
    if places == [] then 0
    else Outstanding(places[..|places| - 1]) + (if Counted(places[|places| - 1]) then 0 else 1)
  }

  function Init(n: nat): State {
    State(false, n, seq(n, _ => Parked), Starting(0))
  }

  predicate Enabled(s: State, step: Step) {
    match step
    case Start => s.boot.Starting? && s.boot.next < |s.places|
    case SeeZero => (s.boot == Waiting || s.boot == Starting(|s.places|)) && s.apDone <= 0
    case SpinBoot => (s.boot == Waiting || s.boot == Starting(|s.places|)) && s.apDone > 0
    case TestAndSet(i) => i < |s.places| && s.places[i].Spinning?
    case Load(i) => i < |s.places| && s.places[i].Locked?
    case Store(i) => i < |s.places| && s.places[i].Loaded?
    case Clear(i) => i < |s.places| && s.places[i].Stored?
  }

  function Moved(s: State, i: nat, p: Place): State
    requires i < |s.places|
  {
    s.(places := s.places[i := p])
  }

  function Apply(s: State, step: Step): State
    requires Enabled(s, step)
  {
    match step
    case Start => Moved(s, s.boot.next, Spinning).(boot := Starting(s.boot.next + 1))
    case SeeZero => s.(boot := Through)
    case SpinBoot => s.(boot := Waiting)
    case TestAndSet(i) => if s.flag then s else Moved(s, i, Locked).(flag := true)
    case Load(i) => Moved(s, i, Loaded(s.apDone))
    case Store(i) => Moved(s, i, Stored).(apDone := s.places[i].value - 1)
    case Clear(i) => Moved(s, i, Idle).(flag := false)
  }

  /** A run: each state follows from the one before by one enabled step. */
  ghost predicate Run(n: nat, states: seq<State>, steps: seq<Step>) {
    && |states| == |steps| + 1 && states[0] == Init(n)
    && forall k :: 0 <= k < |steps| ==> Enabled(states[k], steps[k]) && states[k + 1] == Apply(states[k], steps[k])
  }

  ghost predicate Inv(s: State, n: nat) {
    && |s.places| == n
    && s.apDone == Outstanding(s.places)
    && (forall i :: 0 <= i < n && s.places[i].Loaded? ==> s.places[i].value == s.apDone)
    && (forall i, j :: 0 <= i < j < n ==> !(Holds(s.places[i]) && Holds(s.places[j])))
    && (forall i :: 0 <= i < n && Holds(s.places[i]) ==> s.flag)
    && (s.flag ==> exists i :: 0 <= i < n && Holds(s.places[i]))
    && (s.boot.Starting? ==> s.boot.next <= n && forall i :: s.boot.next <= i < n ==> s.places[i].Parked?)
    && (forall i :: 0 <= i < n && !(s.boot.Starting? && s.boot.next <= i) ==> !s.places[i].Parked?)
    && (s.boot.Through? ==> s.apDone == 0)
  }

  lemma {:induction false} OutstandingUpdate(places: seq<Place>, i: nat, p: Place)
    requires i < |places|
    ensures Outstanding(places[i := p]) ==
            Outstanding(places) + (if Counted(p) then 0 else 1) - (if Counted(places[i]) then 0 else 1)
    decreases |places|
  {
    var m := |places| - 1;
    if i == m {
      assert places[i := p][..m] == places[..m];
    } else {
      assert places[i := p][..m] == places[..m][i := p];
      OutstandingUpdate(places[..m], i, p);
    }
  }

  lemma {:induction false} OutstandingZero(places: seq<Place>)
    ensures Outstanding(places) == 0 <==> forall i :: 0 <= i < |places| ==> Counted(places[i])
    decreases |places|
  {
    if places != [] {
      OutstandingZero(places[..|places| - 1]);
    }
  }

  lemma {:induction false} OutstandingAll(n: nat)
    ensures Outstanding(seq(n, _ => Parked)) == n
  {
    if n > 0 {
      OutstandingAll(n - 1);
      assert seq(n, _ => Parked)[..n - 1] == seq(n - 1, _ => Parked);
    }
  }

  lemma InvBootStep(s: State, n: nat, step: Step)
    requires Inv(s, n) && Enabled(s, step) && (step.Start? || step.SeeZero? || step.SpinBoot?)
    ensures Inv(Apply(s, step), n)
  {
    if step.Start? {
      OutstandingUpdate(s.places, s.boot.next, Spinning);
      var s' := Apply(s, step);
      if s.flag {
        var h :| 0 <= h < n && Holds(s.places[h]);
        assert Holds(s'.places[h]);
      }
    }
  }

  /** A step of the lock holder, or taking the lock. */
  lemma InvLockStep(s: State, n: nat, step: Step, i: nat, p: Place)
    requires Inv(s, n) && Enabled(s, step) && i < n
    requires (step == TestAndSet(i) && !s.flag && p == Locked) || (step == Load(i) && p == Loaded(s.apDone)) ||
             (step == Store(i) && p == Stored)
    ensures Inv(Apply(s, step), n)
  {
    OutstandingUpdate(s.places, i, p);
    assert Holds(Apply(s, step).places[i]);
  }

  lemma InvStep(s: State, n: nat, step: Step)
    requires Inv(s, n) && Enabled(s, step)
    ensures Inv(Apply(s, step), n)
  {
    match step
    case Start => InvBootStep(s, n, step);
    case SeeZero => InvBootStep(s, n, step);
    case SpinBoot => InvBootStep(s, n, step);
    case TestAndSet(i) =>
      if !s.flag {
        InvLockStep(s, n, step, i, Locked);
      }
    case Load(i) => InvLockStep(s, n, step, i, Loaded(s.apDone));
    case Store(i) => InvLockStep(s, n, step, i, Stored);
    case Clear(i) =>
      OutstandingUpdate(s.places, i, Idle);
  }

  /** The invariant holds in every state of every run. */
  lemma {:induction false} InvAlways(n: nat, states: seq<State>, steps: seq<Step>, k: nat)
    requires Run(n, states, steps) && k < |states|
    ensures Inv(states[k], n)
  {
    if k == 0 {
      OutstandingAll(n);
    } else {
      InvAlways(n, states, steps, k - 1);
      InvStep(states[k - 1], n, steps[k - 1]);
    }
  }

  /** At most one processor is between lock and unlock, whatever the interleaving. */
  lemma MutualExclusion(n: nat, states: seq<State>, steps: seq<Step>, k: nat, i: nat, j: nat)
    requires Run(n, states, steps) && k < |states| && i < n && j < n && i != j
    ensures |states[k].places| == n && !(Holds(states[k].places[i]) && Holds(states[k].places[j]))
  {
    InvAlways(n, states, steps, k);
  }

  /** The boot processor is through only when every processor has been started and has decremented the counter, and
      the counter then stays at zero. */
  lemma BarrierSafe(n: nat, states: seq<State>, steps: seq<Step>, k: nat)
    requires Run(n, states, steps) && k < |states| && states[k].boot.Through?
    ensures states[k].apDone == 0 && |states[k].places| == n
    ensures forall i :: 0 <= i < n ==> Counted(states[k].places[i])
  {
    InvAlways(n, states, steps, k);
    OutstandingZero(states[k].places);
  }

  /** No run gets stuck before the boot processor is through: some processor can always make progress. */
  lemma NoDeadlock(s: State, n: nat) returns (step: Step)
    requires Inv(s, n) && !s.boot.Through?
    ensures Enabled(s, step) && Apply(s, step) != s
  {
    if s.boot.Starting? && s.boot.next < n {
      step := Start;
    } else if s.apDone <= 0 {
      step := SeeZero;
    } else {
      OutstandingZero(s.places);
      var i :| 0 <= i < n && !Counted(s.places[i]);
      if s.flag {
        var h :| 0 <= h < n && Holds(s.places[h]);
        step := if s.places[h].Locked? then Load(h) else if s.places[h].Loaded? then Store(h) else Clear(h);
      } else {
        step := TestAndSet(i);
      }
    }
  }

  // ----- termination -----

  function PlaceRank(p: Place): nat {
    match p
    case Parked => 5
    case Spinning => 4
    case Locked => 3
    case Loaded(_) => 2
    case Stored => 1
    case Idle => 0
  }

  function PlacesRank(places: seq<Place>): nat {
    if places == [] then 0 else PlacesRank(places[..|places| - 1]) + PlaceRank(places[|places| - 1])
  }

  function BootRank(b: Boot): nat {
    match b case Starting(_) => 2 case Waiting => 1 case Through => 0
  }

  /** How many steps that change something can still follow, at most. */
  function Rank(s: State): nat {
    PlacesRank(s.places) + BootRank(s.boot)
  }

  lemma {:induction false} RankUpdate(places: seq<Place>, i: nat, p: Place)
    requires i < |places|
    ensures PlacesRank(places[i := p]) == PlacesRank(places) + PlaceRank(p) - PlaceRank(places[i])
    decreases |places|
  {
    var m := |places| - 1;
    if i == m {
      assert places[i := p][..m] == places[..m];
    } else {
      assert places[i := p][..m] == places[..m][i := p];
      RankUpdate(places[..m], i, p);
    }
  }

  lemma {:induction false} RankStart(n: nat)
    ensures PlacesRank(seq(n, _ => Parked)) == 5 * n
  {
    if n > 0 {
      RankStart(n - 1);
      assert seq(n, _ => Parked)[..n - 1] == seq(n - 1, _ => Parked);
    }
  }

  /** Every step that changes the state lowers the rank. */
  lemma RankFalls(s: State, n: nat, step: Step)
    requires Inv(s, n) && Enabled(s, step) && Apply(s, step) != s
    ensures Rank(Apply(s, step)) == Rank(s) - 1 || (step.SeeZero? && Rank(Apply(s, step)) < Rank(s))
  {
    match step
    case Start => RankUpdate(s.places, s.boot.next, Spinning);
    case SeeZero =>
    case SpinBoot =>
    case TestAndSet(i) => RankUpdate(s.places, i, Locked);
    case Load(i) => RankUpdate(s.places, i, Loaded(s.apDone));
    case Store(i) => RankUpdate(s.places, i, Stored);
    case Clear(i) => RankUpdate(s.places, i, Idle);
  }

  /** The number of steps among the first `k` that changed the state. */
  ghost function Changes(states: seq<State>, k: nat): nat
    requires k < |states|
  {
    if k == 0 then 0 else Changes(states, k - 1) + (if states[k] != states[k - 1] then 1 else 0)
  }

  /** In every run at most 5n + 2 steps change anything; all others are turns of the two waiting loops. */
  lemma {:induction false} ChangesBounded(n: nat, states: seq<State>, steps: seq<Step>, k: nat)
    requires Run(n, states, steps) && k < |states|
    ensures Changes(states, k) + Rank(states[k]) <= 5 * n + 2
  {
    if k == 0 {
      RankStart(n);
    } else {
      ChangesBounded(n, states, steps, k - 1);
      InvAlways(n, states, steps, k - 1);
      if states[k] != states[k - 1] {
        RankFalls(states[k - 1], n, steps[k - 1]);
      }
    }
  }

  lemma CanRelease(s: State, i: nat)
    requires i < |s.places|
    ensures s.places[i].Stored? ==> Enabled(s, Clear(i)) && Apply(s, Clear(i)) != s
  {
    if s.places[i].Stored? {
      assert Apply(s, Clear(i)).places[i] == Idle;
    }
  }

  /** Where no step changes anything any more, start-up is complete: the boot processor is through, every processor has
      left the critical section and the lock is free. */
  lemma QuietMeansDone(s: State, n: nat)
    requires Inv(s, n) && forall step :: Enabled(s, step) ==> Apply(s, step) == s
    ensures s.boot.Through? && !s.flag && s.apDone == 0 && forall i :: 0 <= i < n ==> s.places[i].Idle?
  {
    if !s.boot.Through? {
      var _ := NoDeadlock(s, n);
    }
    OutstandingZero(s.places);
    forall i | 0 <= i < n
      ensures s.places[i].Idle?
    {
      CanRelease(s, i);
    }
  }
}
