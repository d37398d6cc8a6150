/** The scheduler: per processor a FIFO run queue, the running process and a list of exited processes; one global
    queue of processes without a processor. Steps are atomic under their locks. */
module Scheduler {
  import opened Prelude
  import opened FifoQueue

  /** `inside` says that a process executes; otherwise the scheduler does, and `running` may be the last process. */
  datatype Cpu = Cpu(running: Option<nat>, inside: bool, local: seq<nat>, dead: seq<nat>)
  datatype State = State(cpus: seq<Cpu>, global: seq<nat>)
  datatype Step = Run(cpu: nat) | Yield(cpu: nat) | Preempt(cpu: nat) | Exit(cpu: nat) | Spawn(process: nat)

  // ------------------------------------------------------------------ the steps

  function Dispatched(x: Cpu): Cpu
    requires x.local != []
  {
    Cpu(Some(x.local[0]), true, x.local[1..], x.dead)
  }

  /** Nothing to run: the dead are purged, and one process is picked up from the global queue. */
  function Idled(x: Cpu, global: seq<nat>): Cpu
  {
    x.(dead := [], local := if global == [] then x.local else x.local + [global[0]])
  }

  function Yielded(x: Cpu): Cpu
    requires x.running.Some?
  {
    if x.local == [] then x else x.(inside := false, local := x.local + [x.running.value])
  }

  function Preempted(x: Cpu): Cpu
    requires x.running.Some?
  {
    x.(inside := false, local := x.local + [x.running.value])
  }

  function Exited(x: Cpu): Cpu
    requires x.running.Some?
  {
    Cpu(None, false, x.local, [x.running.value] + x.dead)
  }

  predicate Enabled(s: State, step: Step)
  {
    match step
    case Run(c) => c < |s.cpus| && !s.cpus[c].inside
    case Spawn(_) => true
    case _ => step.cpu < |s.cpus| && s.cpus[step.cpu].inside && s.cpus[step.cpu].running.Some?
  }

  function Do(s: State, step: Step): State
    requires Enabled(s, step)
  {
    match step
    case Run(c) =>
      if s.cpus[c].local == []
      then State(s.cpus[c := Idled(s.cpus[c], s.global)], if s.global == [] then [] else s.global[1..])
      else s.(cpus := s.cpus[c := Dispatched(s.cpus[c])])
    case Yield(c) => s.(cpus := s.cpus[c := Yielded(s.cpus[c])])
    case Preempt(c) => s.(cpus := s.cpus[c := Preempted(s.cpus[c])])
    case Exit(c) => s.(cpus := s.cpus[c := Exited(s.cpus[c])])
    case Spawn(p) => s.(global := s.global + [p])
  }

  predicate Runnable(s: State, steps: seq<Step>)
    decreases |steps|
  {
    steps == [] || (Enabled(s, steps[0]) && Runnable(Do(s, steps[0]), steps[1..]))
  }

  function After(s: State, steps: seq<Step>): State
    requires Runnable(s, steps)
    decreases |steps|
  {
    if steps == [] then s else After(Do(s, steps[0]), steps[1..])
  }

  // ------------------------------------------------------------------ conservation

  /** How often process `p` is in a list. */
  ghost function Count(s: seq<nat>, p: nat): nat
  {
    if s == [] then 0 else (if s[0] == p then 1 else 0) + Count(s[1..], p)
  }

  lemma {:induction false} CountAppend(s: seq<nat>, q: nat, p: nat)
    ensures Count(s + [q], p) == Count(s, p) + if q == p then 1 else 0
  {
    if s != [] {
      CountAppend(s[1..], q, p);
      assert (s + [q])[1..] == s[1..] + [q];
    }
  }

  /** How often a processor holds `p`: executing, waiting or dead. */
  ghost function Held(x: Cpu, p: nat): nat
  {
    (if x.inside && x.running == Some(p) then 1 else 0) + Count(x.local, p) + Count(x.dead, p)
  }

  ghost function Total(cpus: seq<Cpu>, p: nat): nat
  {
    if cpus == [] then 0 else Held(cpus[0], p) + Total(cpus[1..], p)
  }

  ghost function Present(s: State, p: nat): nat
  {
    Total(s.cpus, p) + Count(s.global, p)
  }

  lemma {:induction false} TotalUpdate(cpus: seq<Cpu>, c: nat, x: Cpu, p: nat)
    requires c < |cpus|
    ensures Total(cpus[c := x], p) + Held(cpus[c], p) == Total(cpus, p) + Held(x, p)
  {
    if c == 0 {
      assert cpus[0 := x][1..] == cpus[1..];
    } else {
      TotalUpdate(cpus[1..], c - 1, x, p);
      assert cpus[c := x][1..] == cpus[1..][c - 1 := x];
    }
  }

  /** How often a step purges `p`. */
  ghost function Purged(s: State, step: Step, p: nat): nat
  {
    if step.Run? && step.cpu < |s.cpus| && s.cpus[step.cpu].local == [] then Count(s.cpus[step.cpu].dead, p) else 0
  }

  ghost function Born(step: Step, p: nat): nat
  {
    if step == Spawn(p) then 1 else 0
  }

  /** A step of one processor moves processes but neither loses nor duplicates one. */
  lemma CpuConserves(x: Cpu, global: seq<nat>, p: nat)
    ensures !x.inside && x.local != [] ==> Held(Dispatched(x), p) == Held(x, p)
    ensures x.local == [] ==>
      Held(Idled(x, global), p) + Count(x.dead, p) == Held(x, p) + if global != [] && global[0] == p then 1 else 0
    ensures x.inside && x.running.Some? ==>
      Held(Yielded(x), p) == Held(Preempted(x), p) == Held(Exited(x), p) == Held(x, p)
  {
    if x.running.Some? {
      CountAppend(x.local, x.running.value, p);
      assert ([x.running.value] + x.dead)[1..] == x.dead;
    }
    if global != [] {
      CountAppend(x.local, global[0], p);
    }
  }

  lemma StepConserves(s: State, step: Step, p: nat)
    requires Enabled(s, step)
    ensures Present(Do(s, step), p) + Purged(s, step, p) == Present(s, p) + Born(step, p)
  {
    if step.Spawn? {
      CountAppend(s.global, step.process, p);
    } else {
      TotalUpdate(s.cpus, step.cpu, Do(s, step).cpus[step.cpu], p);
      CpuConserves(s.cpus[step.cpu], s.global, p);
    }
  }

  ghost function AllPurged(s: State, steps: seq<Step>, p: nat): nat
    requires Runnable(s, steps)
    decreases |steps|
  {
    if steps == [] then 0 else Purged(s, steps[0], p) + AllPurged(Do(s, steps[0]), steps[1..], p)
  }

  ghost function AllBorn(steps: seq<Step>, p: nat): nat
  {
    if steps == [] then 0 else Born(steps[0], p) + AllBorn(steps[1..], p)
  }

  /** Over every run, a process is present or purged as often as it was there or spawned. */
  lemma {:induction false} RunConserves(s: State, steps: seq<Step>, p: nat)
    requires Runnable(s, steps)
    ensures Present(After(s, steps), p) + AllPurged(s, steps, p) == Present(s, p) + AllBorn(steps, p)
    decreases |steps|
  {
    if steps != [] {
      StepConserves(s, steps[0], p);
      RunConserves(Do(s, steps[0]), steps[1..], p);
    }
  }

  // ------------------------------------------------------------------ one place each

  datatype Spot = Executing | Waiting(index: nat) | Dead(index: nat)
  datatype Place = On(cpu: nat, spot: Spot) | Homeless(index: nat)

  predicate OccupiesSpot(x: Cpu, a: Spot, p: nat)
  {
    match a
    case Executing => x.inside && x.running == Some(p)
    case Waiting(i) => i < |x.local| && x.local[i] == p
    case Dead(i) => i < |x.dead| && x.dead[i] == p
  }

  predicate Occupies(s: State, a: Place, p: nat)
  {
    match a
    case On(c, spot) => c < |s.cpus| && OccupiesSpot(s.cpus[c], spot, p)
    case Homeless(i) => i < |s.global| && s.global[i] == p
  }

  lemma {:induction false} CountAt(s: seq<nat>, i: nat, p: nat)
    requires i < |s| && s[i] == p
    ensures Count(s, p) >= 1
  {
    if i > 0 { CountAt(s[1..], i - 1, p); }
  }

  lemma {:induction false} CountTwice(s: seq<nat>, i: nat, j: nat, p: nat)
    requires i < j < |s| && s[i] == p == s[j]
    ensures Count(s, p) >= 2
  {
    if i == 0 { CountAt(s[1..], j - 1, p); } else { CountTwice(s[1..], i - 1, j - 1, p); }
  }

  lemma {:induction false} CountFinds(s: seq<nat>, p: nat) returns (i: nat)
    requires Count(s, p) >= 1
    ensures i < |s| && s[i] == p
  {
    if s[0] == p {
      i := 0;
    } else {
      i := CountFinds(s[1..], p);
      i := i + 1;
    }
  }

  lemma HeldAt(x: Cpu, a: Spot, p: nat)
    requires OccupiesSpot(x, a, p)
    ensures Held(x, p) >= 1
  {
    match a
    case Executing =>
    case Waiting(i) => CountAt(x.local, i, p);
    case Dead(i) => CountAt(x.dead, i, p);
  }

  lemma HeldTwice(x: Cpu, a: Spot, b: Spot, p: nat)
    requires OccupiesSpot(x, a, p) && OccupiesSpot(x, b, p) && a != b
    ensures Held(x, p) >= 2
  {
    if a.Waiting? { CountAt(x.local, a.index, p); }
    if b.Waiting? { CountAt(x.local, b.index, p); }
    if a.Dead? { CountAt(x.dead, a.index, p); }
    if b.Dead? { CountAt(x.dead, b.index, p); }
    if a.Waiting? && b.Waiting? {
      if a.index < b.index { CountTwice(x.local, a.index, b.index, p); }
        else { CountTwice(x.local, b.index, a.index, p); }
    }
    if a.Dead? && b.Dead? {
      if a.index < b.index { CountTwice(x.dead, a.index, b.index, p); }
        else { CountTwice(x.dead, b.index, a.index, p); }
    }
  }

  lemma {:induction false} TotalAt(cpus: seq<Cpu>, c: nat, p: nat)
    requires c < |cpus|
    ensures Total(cpus, p) >= Held(cpus[c], p)
  {
    if c > 0 { TotalAt(cpus[1..], c - 1, p); }
  }

  lemma {:induction false} TotalTwice(cpus: seq<Cpu>, c: nat, d: nat, p: nat)
    requires c < d < |cpus|
    ensures Total(cpus, p) >= Held(cpus[c], p) + Held(cpus[d], p)
  {
    if c == 0 { TotalAt(cpus[1..], d - 1, p); } else { TotalTwice(cpus[1..], c - 1, d - 1, p); }
  }

  lemma {:induction false} TotalFinds(cpus: seq<Cpu>, p: nat) returns (c: nat)
    requires Total(cpus, p) >= 1
    ensures c < |cpus| && Held(cpus[c], p) >= 1
  {
    if Held(cpus[0], p) >= 1 {
      c := 0;
    } else {
      c := TotalFinds(cpus[1..], p);
      c := c + 1;
    }
  }

  /** A process that is present once is in one place only. */
  lemma PlaceIsUnique(s: State, a: Place, b: Place, p: nat)
    requires Present(s, p) <= 1 && Occupies(s, a, p) && Occupies(s, b, p)
    ensures a == b
  {
    if a.On? { HeldAt(s.cpus[a.cpu], a.spot, p); TotalAt(s.cpus, a.cpu, p); } else { CountAt(s.global, a.index, p); }
    if b.On? { HeldAt(s.cpus[b.cpu], b.spot, p); TotalAt(s.cpus, b.cpu, p); } else { CountAt(s.global, b.index, p); }
    if a.On? && b.On? {
      if a.cpu < b.cpu { TotalTwice(s.cpus, a.cpu, b.cpu, p); }
      if b.cpu < a.cpu { TotalTwice(s.cpus, b.cpu, a.cpu, p); }
      if a.cpu == b.cpu && a.spot != b.spot { HeldTwice(s.cpus[a.cpu], a.spot, b.spot, p); }
    } else if a.Homeless? && b.Homeless? {
      if a.index < b.index { CountTwice(s.global, a.index, b.index, p); }
      if b.index < a.index { CountTwice(s.global, b.index, a.index, p); }
    }
  }

  lemma PlaceExists(s: State, p: nat) returns (a: Place)
    requires Present(s, p) >= 1
    ensures Occupies(s, a, p)
  {
    if Count(s.global, p) >= 1 {
      var i := CountFinds(s.global, p);
      a := Homeless(i);
    } else {
      var c := TotalFinds(s.cpus, p);
      var x := s.cpus[c];
      if x.inside && x.running == Some(p) {
        a := On(c, Executing);
      } else if Count(x.local, p) >= 1 {
        var i := CountFinds(x.local, p);
        a := On(c, Waiting(i));
      } else {
        var i := CountFinds(x.dead, p);
        a := On(c, Dead(i));
      }
    }
  }

  /** From a start without processes, a process spawned once and not purged is in exactly one place. */
  lemma OnePlaceInEveryRun(s: State, steps: seq<Step>, p: nat) returns (a: Place)
    requires Runnable(s, steps) && Present(s, p) == 0 && AllBorn(steps, p) == 1 && AllPurged(s, steps, p) == 0
    ensures Occupies(After(s, steps), a, p)
    ensures forall b | Occupies(After(s, steps), b, p) :: b == a
  {
    RunConserves(s, steps, p);
    a := PlaceExists(After(s, steps), p);
    forall b | Occupies(After(s, steps), b, p) ensures b == a {
      PlaceIsUnique(After(s, steps), b, a, p);
    }
  }

  // ------------------------------------------------------------------ round robin

  /** How often the scheduler runs on processor `c`; while a process waits there, each time is a dispatch. */
  function RunsOn(steps: seq<Step>, c: nat): nat
  {
    if steps == [] then 0 else (if steps[0] == Run(c) then 1 else 0) + RunsOn(steps[1..], c)
  }

  /** One step moves a waiting process forward by one place exactly if its processor dispatches. */
  lemma Forward(s: State, step: Step, c: nat, k: nat)
    requires Enabled(s, step) && c < |s.cpus| && k < |s.cpus[c].local|
    ensures var p, t := s.cpus[c].local[k], Do(s, step);
      && c < |t.cpus|
      && (step != Run(c) ==> k < |t.cpus[c].local| && t.cpus[c].local[k] == p)
      && (step == Run(c) && k > 0 ==> k - 1 < |t.cpus[c].local| && t.cpus[c].local[k - 1] == p)
      && (step == Run(c) && k == 0 ==> t.cpus[c].running == Some(p) && t.cpus[c].inside)
  {
  }

  /** Whatever the processors do, a process with `k` others before it in its queue still waits after up to `k`
      dispatches of its processor, with as many fewer before it. */
  lemma {:induction false} StillWaiting(s: State, steps: seq<Step>, c: nat, k: nat)
    requires Runnable(s, steps) && c < |s.cpus| && k < |s.cpus[c].local| && RunsOn(steps, c) <= k
    ensures var t := After(s, steps);
      c < |t.cpus| && k - RunsOn(steps, c) < |t.cpus[c].local| &&
        t.cpus[c].local[k - RunsOn(steps, c)] == s.cpus[c].local[k]
    decreases |steps|
  {
    if steps != [] {
      Forward(s, steps[0], c, k);
      StillWaiting(Do(s, steps[0]), steps[1..], c, if steps[0] == Run(c) then k - 1 else k);
    }
  }

  /** The dispatch after exactly `k` further ones runs it. */
  lemma DispatchedAfterExactly(s: State, steps: seq<Step>, c: nat, k: nat)
    requires Runnable(s, steps) && c < |s.cpus| && k < |s.cpus[c].local| && RunsOn(steps, c) == k
    requires Enabled(After(s, steps), Run(c))
    ensures c < |After(s, steps).cpus| &&
      var x := Do(After(s, steps), Run(c)).cpus[c];
      x.inside && x.running == Some(s.cpus[c].local[k])
  {
    StillWaiting(s, steps, c, k);
    Forward(After(s, steps), Run(c), c, 0);
  }

  /** A process that yields to others or is preempted waits behind all that waited before. A process that yields to
      nobody goes on executing. */
  lemma LeavesForTheEnd(s: State, step: Step, c: nat)
    requires Enabled(s, step) && (step == Yield(c) || step == Preempt(c))
    ensures var p, x, y := s.cpus[c].running.value, s.cpus[c], Do(s, step).cpus[c];
      if step == Yield(c) && x.local == [] then Do(s, step) == s
      else |y.local| == |x.local| + 1 && y.local[|x.local|] == p && !y.inside && y.dead == x.dead
  {
  }

  /** So, with `n` others before it, it executes again after exactly `n` further dispatches of its processor. */
  lemma ExecutesAgainAfter(s: State, step: Step, c: nat, steps: seq<Step>)
    requires Enabled(s, step) && (step == Preempt(c) || (step == Yield(c) && s.cpus[c].local != []))
    requires Runnable(Do(s, step), steps) && RunsOn(steps, c) == |s.cpus[c].local|
    requires Enabled(After(Do(s, step), steps), Run(c))
    ensures var t := After(Do(s, step), steps);
      c < |t.cpus| && var x := Do(t, Run(c)).cpus[c];
      x.inside && x.running == s.cpus[c].running
  {
    LeavesForTheEnd(s, step, c);
    DispatchedAfterExactly(Do(s, step), steps, c, |s.cpus[c].local|);
  }

  // ------------------------------------------------------------------ the global queue

  /** The step takes a process from the global queue. */
  predicate Adopts(s: State, step: Step)
  {
    step.Run? && step.cpu < |s.cpus| && s.cpus[step.cpu].local == []
  }

  /** A spawned process waits behind all others without a processor. */
  lemma SpawnedLast(s: State, p: nat)
    ensures var t := Do(s, Spawn(p));
      t.cpus == s.cpus && |t.global| == |s.global| + 1 && t.global[|s.global|] == p
  {
  }

  /** A step moves a process without a processor forward by one place exactly if some processor adopts one; the first is
      adopted, and waits last on the processor that adopts it. */
  lemma HomelessForward(s: State, step: Step, k: nat)
    requires Enabled(s, step) && k < |s.global|
    ensures var p, t := s.global[k], Do(s, step);
      && (!Adopts(s, step) ==> k < |t.global| && t.global[k] == p)
      && (Adopts(s, step) && k > 0 ==> k - 1 < |t.global| && t.global[k - 1] == p)
      && (Adopts(s, step) && k == 0 ==> t.cpus[step.cpu].local == [p])
  {
  }

  /** How often a run adopts a process. */
  function Adoptions(s: State, steps: seq<Step>): nat
    requires Runnable(s, steps)
    decreases |steps|
  {
    if steps == [] then 0 else (if Adopts(s, steps[0]) then 1 else 0) + Adoptions(Do(s, steps[0]), steps[1..])
  }

  /** Whatever the processors do, a process with `k` others before it in the global queue still waits after up to `k`
      adoptions, with as many fewer before it. */
  lemma {:induction false} StillHomeless(s: State, steps: seq<Step>, k: nat)
    requires Runnable(s, steps) && k < |s.global| && Adoptions(s, steps) <= k
    ensures var t := After(s, steps);
      k - Adoptions(s, steps) < |t.global| && t.global[k - Adoptions(s, steps)] == s.global[k]
    decreases |steps|
  {
    if steps != [] {
      HomelessForward(s, steps[0], k);
      StillHomeless(Do(s, steps[0]), steps[1..], if Adopts(s, steps[0]) then k - 1 else k);
    }
  }

  /** The adoption after exactly `k` further ones takes it. */
  lemma AdoptedAfterExactly(s: State, steps: seq<Step>, k: nat, c: nat)
    requires Runnable(s, steps) && k < |s.global| && Adoptions(s, steps) == k
    requires Enabled(After(s, steps), Run(c)) && Adopts(After(s, steps), Run(c))
    ensures Do(After(s, steps), Run(c)).cpus[c].local == [s.global[k]]
  {
    StillHomeless(s, steps, k);
    HomelessForward(After(s, steps), Run(c), 0);
  }

  // ------------------------------------------------------------------ who dies

  /** The step ends process `p`. */
  predicate Ends(s: State, step: Step, p: nat)
  {
    step.Exit? && step.cpu < |s.cpus| && s.cpus[step.cpu].running == Some(p)
  }

  predicate NeverEnds(s: State, steps: seq<Step>, p: nat)
    requires Runnable(s, steps)
    decreases |steps|
  {
    steps == [] || (!Ends(s, steps[0], p) && NeverEnds(Do(s, steps[0]), steps[1..], p))
  }

  /** Process `p` is on no dead list. */
  ghost predicate Undead(s: State, p: nat)
  {
    forall c | 0 <= c < |s.cpus| :: p !in s.cpus[c].dead
  }

  lemma {:induction false} CountNone(s: seq<nat>, p: nat)
    requires p !in s
    ensures Count(s, p) == 0
  {
    if s != [] { CountNone(s[1..], p); }
  }

  lemma StaysUndead(s: State, step: Step, p: nat)
    requires Enabled(s, step) && Undead(s, p) && !Ends(s, step, p)
    ensures Undead(Do(s, step), p) && Purged(s, step, p) == 0
  {
    if step.Run? { CountNone(s.cpus[step.cpu].dead, p); }
  }

  /** Over every run, a process that does not exit comes on no dead list and is not purged. */
  lemma {:induction false} OnlyExitedDie(s: State, steps: seq<Step>, p: nat)
    requires Runnable(s, steps) && Undead(s, p) && NeverEnds(s, steps, p)
    ensures Undead(After(s, steps), p) && AllPurged(s, steps, p) == 0
    decreases |steps|
  {
    if steps != [] {
      StaysUndead(s, steps[0], p);
      OnlyExitedDie(Do(s, steps[0]), steps[1..], p);
    }
  }

  /** A process that exits is on its processor's dead list and executes no more. */
  lemma ExitedIsDead(s: State, c: nat)
    requires Enabled(s, Exit(c))
    ensures var x, y := s.cpus[c], Do(s, Exit(c)).cpus[c];
      x.running.value in y.dead && !y.inside && y.running == None && y.local == x.local
  {
  }

  /** Process `p` neither executes nor waits anywhere. */
  ghost predicate AtRest(s: State, p: nat)
  {
    p !in s.global && forall c | 0 <= c < |s.cpus| :: RestsOn(s.cpus[c], p)
  }

  predicate RestsOn(x: Cpu, p: nat)
  {
    p !in x.local && !(x.inside && x.running == Some(p))
  }

  lemma StaysAtRest(s: State, step: Step, p: nat)
    requires Enabled(s, step) && AtRest(s, p) && step != Spawn(p)
    ensures AtRest(Do(s, step), p)
  {
    if !step.Spawn? {
      var x, y := s.cpus[step.cpu], Do(s, step).cpus[step.cpu];
      assert RestsOn(x, p);
      assert forall q | q in y.local :: q in x.local || q in s.global || (x.inside && x.running == Some(q));
    }
  }

  predicate NeverExecutes(s: State, steps: seq<Step>, p: nat)
    requires Runnable(s, steps)
    decreases |steps|
  {
    && (forall c | 0 <= c < |s.cpus| :: !(s.cpus[c].inside && s.cpus[c].running == Some(p)))
    && (steps == [] || NeverExecutes(Do(s, steps[0]), steps[1..], p))
  }

  lemma {:induction false} RestNeverExecutes(s: State, steps: seq<Step>, p: nat)
    requires Runnable(s, steps) && AtRest(s, p) && Spawn(p) !in steps
    ensures NeverExecutes(s, steps, p) && AtRest(After(s, steps), p)
    decreases |steps|
  {
    assert forall c | 0 <= c < |s.cpus| :: RestsOn(s.cpus[c], p);
    if steps != [] {
      StaysAtRest(s, steps[0], p);
      RestNeverExecutes(Do(s, steps[0]), steps[1..], p);
    }
  }

  /** A process that is present once and exits never executes again, in any run that does not spawn it anew. */
  lemma ExitedNeverReturns(s: State, c: nat, steps: seq<Step>)
    requires Enabled(s, Exit(c)) && Present(s, s.cpus[c].running.value) == 1
    requires Runnable(Do(s, Exit(c)), steps) && Spawn(s.cpus[c].running.value) !in steps
    ensures NeverExecutes(Do(s, Exit(c)), steps, s.cpus[c].running.value)
  {
    var p, t := s.cpus[c].running.value, Do(s, Exit(c));
    assert Occupies(s, On(c, Executing), p);
    forall d | 0 <= d < |t.cpus| ensures RestsOn(t.cpus[d], p) {
      if i :| 0 <= i < |s.cpus[d].local| && s.cpus[d].local[i] == p {
        PlaceIsUnique(s, On(c, Executing), On(d, Waiting(i)), p);
      }
      if d != c && s.cpus[d].inside && s.cpus[d].running == Some(p) {
        PlaceIsUnique(s, On(c, Executing), On(d, Executing), p);
      }
    }
    if i :| 0 <= i < |s.global| && s.global[i] == p {
      PlaceIsUnique(s, On(c, Executing), Homeless(i), p);
    }
    RestNeverExecutes(t, steps, p);
  }

  // ------------------------------------------------------------------ the code of one processor

  class Processor {
    const queue: Queue
    var running: Option<nat>
    var dead: seq<nat>
    ghost var inside: bool

    ghost predicate Valid()
      reads this, queue, queue.repr
    {
      queue.Valid() && (inside ==> running.Some?)
    }

    ghost function View(): Cpu
      reads this, queue
    {
      Cpu(running, inside, queue.items, dead)
    }

    constructor ()
      ensures Valid() && View() == Cpu(None, false, [], []) && fresh(queue) && fresh(queue.repr)
    {
      queue := new Queue();
      running, dead, inside := None, [], false;
    }

    /** `sched_run`, with `purge_dead_processes` and `look_for_process` when there is nothing to run. */
    method SchedRun(global: Queue)
      requires Valid() && !inside && global.Valid() && global != queue && global.repr !! queue.repr
      modifies this, queue, queue.repr, global, global.repr
      ensures Valid() && global.Valid() && global.repr !! queue.repr
      ensures old(View()).local == [] ==> View() == Idled(old(View()), old(global.items))
      ensures old(View()).local == [] ==> global.items == if old(global.items) == [] then [] else old(global.items)[1..]
      ensures old(View()).local != [] ==> View() == Dispatched(old(View())) && global.items == old(global.items)
    {
      if queue.head == null {
        PurgeDead();
        LookForProcess(global);
        return;
      }
      running := Some(queue.head.data);
      queue.Dequeue();
      inside := true;
    }

    method PurgeDead()
      modifies this`dead
      ensures dead == []
    {
      while dead != []
        modifies this`dead
      {
        dead := dead[1..];
      }
    }

    method LookForProcess(global: Queue)
      requires queue.Valid() && global.Valid() && global != queue && global.repr !! queue.repr
      modifies queue, queue.repr, global, global.repr
      ensures queue.Valid() && global.Valid() && global.repr !! queue.repr
      ensures queue.items == old(queue.items) + if old(global.items) == [] then [] else [old(global.items)[0]]
      ensures global.items == if old(global.items) == [] then [] else old(global.items)[1..]
    {
      if global.nodeCount == 0 {
        return;
      }
      var process := global.head.data;
      global.Dequeue();
      queue.Enqueue(process);
    }

    method SchedYield()
      requires Valid() && inside
      modifies this, queue, queue.repr
      ensures Valid() && old(View()).running.Some? && View() == Yielded(old(View()))
    {
      if queue.head == null {
        return;
      }
      queue.Enqueue(running.value);
      inside := false;
    }

    method SchedPreempt()
      requires Valid() && inside
      modifies this, queue, queue.repr
      ensures Valid() && old(View()).running.Some? && View() == Preempted(old(View()))
    {
      queue.Enqueue(running.value);
      inside := false;
    }

    method SchedExit()
      requires Valid() && inside
      modifies this
      ensures Valid() && old(View()).running.Some? && View() == Exited(old(View()))
    {
      dead := [running.value] + dead;
      running := None;
      inside := false;
    }
  }
}
