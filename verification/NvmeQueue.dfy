/** The submission and completion rings of an NVMe queue pair, with the phase tag, as a protocol between
    the host and the controller. The host issues one command at a time; the controller moves on its own. */
module NvmeQueue {
  import opened Prelude

  datatype Command = Command(opcode: nat, commandId: nat, payload: seq<nat>)
  datatype Entry = Entry(commandId: nat, code: nat, result: nat, phase: bool)
  /** A completion the controller posted, with the command it is for. */
  datatype Posting = Posting(command: Command, entry: Entry)

  /** What the controller does between two looks of the host: nothing, fetch the next command, or post the
      completion of the command it has fetched, with any status code and result. */
  datatype Action = Idle | Fetch | Post(code: nat, result: nat)

  datatype Step = Submit(command: Command) | Controller(action: Action) | Poll

  /** The two rings, the host's and the controller's indices and phases, the doorbells, and the history
      of the run: laps around the completion ring, commands submitted, completions posted and accepted. */
  datatype State = State(
    depth: nat, sq: seq<Command>, cq: seq<Entry>,
    sqTail: nat, cqHead: nat, cqPhase: bool, sqDoorbell: nat, cqDoorbell: nat,
    ctlSqHead: nat, ctlCqTail: nat, ctlPhase: bool, fetched: Option<Command>,
    waiting: bool, hostLap: nat, ctlLap: nat,
    submitted: seq<Command>, posted: seq<Posting>, accepted: seq<Entry>)

  function NextIndex(s: State, i: nat): nat
  {
    if i + 1 == s.depth then 0 else i + 1
  }

  predicate Odd(n: nat)
  {
    n % 2 == 1
  }

  /** The host writes the command at its tail and rings the doorbell with the next tail. */
  function SubmitStep(s: State, c: Command): State
    requires s.sqTail < |s.sq|
  {
    var tail := NextIndex(s, s.sqTail);
    s.(sq := s.sq[s.sqTail := c], sqTail := tail, sqDoorbell := tail, waiting := true, submitted := s.submitted + [c])
  }

  /** The controller fetches while its head differs from the doorbell, and posts while the completion ring
      is not full; any other action does nothing. */
  function ControllerStep(s: State, a: Action): State
    requires s.ctlSqHead < |s.sq| && s.ctlCqTail < |s.cq|
  {
    match a
    case Idle => s
    case Fetch =>
      if s.fetched.None? && s.ctlSqHead != s.sqDoorbell
      then s.(fetched := Some(s.sq[s.ctlSqHead]), ctlSqHead := NextIndex(s, s.ctlSqHead))
      else s
    case Post(code, result) =>
      if s.fetched.Some? && NextIndex(s, s.ctlCqTail) != s.cqDoorbell
      then
        var entry := Entry(s.fetched.value.commandId, code, result, s.ctlPhase);
        var wraps := s.ctlCqTail + 1 == s.depth;
        s.(cq := s.cq[s.ctlCqTail := entry], ctlCqTail := NextIndex(s, s.ctlCqTail),
           ctlPhase := if wraps then !s.ctlPhase else s.ctlPhase, ctlLap := if wraps then s.ctlLap + 1 else s.ctlLap,
           fetched := None, posted := s.posted + [Posting(s.fetched.value, entry)])
      else s
  }

  /** The host's look at its completion slot matches when the phase bit is the one it expects. */
  predicate PollHits(s: State)
    requires s.cqHead < |s.cq|
  {
    s.cq[s.cqHead].phase == s.cqPhase
  }

  /** A look that matches consumes the entry: the same on the success and on the error path. */
  function PollStep(s: State): State
    requires s.cqHead < |s.cq|
  {
    if !PollHits(s) then s else
    var wraps := s.cqHead + 1 == s.depth;
    s.(cqHead := NextIndex(s, s.cqHead), cqDoorbell := NextIndex(s, s.cqHead),
       cqPhase := if wraps then !s.cqPhase else s.cqPhase, hostLap := if wraps then s.hostLap + 1 else s.hostLap,
       waiting := false, accepted := s.accepted + [s.cq[s.cqHead]])
  }

  /** Zeroed rings, both indices at 0, both phases at 1. */
  ghost predicate Init(s: State)
  {
    && s.depth >= 2 && |s.sq| == |s.cq| == s.depth
    && (forall j | 0 <= j < s.depth :: !s.cq[j].phase)
    && s.sqTail == s.cqHead == s.sqDoorbell == s.cqDoorbell == s.ctlSqHead == s.ctlCqTail == 0
    && s.cqPhase && s.ctlPhase && s.fetched.None? && !s.waiting && s.hostLap == s.ctlLap == 0
    && s.submitted == [] && s.posted == [] && s.accepted == []
  }

  ghost predicate Rings(s: State)
  {
    && s.depth >= 2 && |s.sq| == |s.cq| == s.depth
    && s.sqTail < s.depth && s.cqHead < s.depth && s.ctlSqHead < s.depth && s.ctlCqTail < s.depth
    && s.sqDoorbell == s.sqTail && s.cqDoorbell == s.cqHead
  }

  /** Slots the controller has passed in this lap carry this lap's phase, the others the last lap's. */
  ghost predicate Phases(s: State)
    requires Rings(s)
  {
    && s.ctlPhase == Odd(s.ctlLap + 1) && s.cqPhase == Odd(s.hostLap + 1)
    && forall j | 0 <= j < s.depth :: s.cq[j].phase == Odd(if j < s.ctlCqTail then s.ctlLap + 1 else s.ctlLap)
  }

  /** A posted completion that the host has not accepted yet. */
  predicate Unseen(s: State)
  {
    |s.posted| > |s.accepted|
  }

  /** The controller is where the host is, or one slot ahead of it when a completion is unseen. */
  ghost predicate CompletionSide(s: State)
    requires Rings(s)
  {
    if Unseen(s) then
      && s.waiting && s.cq[s.cqHead] == s.posted[|s.posted| - 1].entry
      && s.ctlCqTail == NextIndex(s, s.cqHead)
      && s.ctlLap == if s.cqHead + 1 == s.depth then s.hostLap + 1 else s.hostLap
    else
      s.ctlCqTail == s.cqHead && s.ctlLap == s.hostLap
  }

  /** The one command in flight is in its slot or in the controller's hands. */
  ghost predicate SubmissionSide(s: State)
    requires Rings(s)
  {
    if s.waiting && !Unseen(s) then
      && |s.submitted| > 0
      && (s.fetched.None? ==>
           NextIndex(s, s.ctlSqHead) == s.sqTail && s.sq[s.ctlSqHead] == s.submitted[|s.submitted| - 1])
      && (s.fetched.Some? ==> s.ctlSqHead == s.sqTail && s.fetched.value == s.submitted[|s.submitted| - 1])
    else
      s.fetched.None? && s.ctlSqHead == s.sqTail
  }

  /** The k-th completion was posted for the k-th command, and what the host accepted is what was posted. */
  ghost predicate History(s: State)
  {
    && |s.submitted| == |s.accepted| + (if s.waiting then 1 else 0)
    && |s.accepted| <= |s.posted| <= |s.submitted|
    && (forall k | 0 <= k < |s.posted| :: s.posted[k].command == s.submitted[k])
    && (forall k | 0 <= k < |s.posted| :: s.posted[k].entry.commandId == s.submitted[k].commandId)
    && (forall k | 0 <= k < |s.accepted| :: s.accepted[k] == s.posted[k].entry)
  }

  ghost predicate Inv(s: State)
  {
    Rings(s) && Phases(s) && CompletionSide(s) && SubmissionSide(s) && History(s)
  }

  lemma InitInv(s: State)
    requires Init(s)
    ensures Inv(s)
  {
  }

  /** The heart of the phase tag: in every reachable state a look matches exactly when the controller has
      posted a completion that the host has not seen. */
  lemma PollHitsExactly(s: State)
    requires Inv(s)
    ensures PollHits(s) <==> Unseen(s)
  {
  }

  lemma SubmitKeeps(s: State, c: Command)
    requires Inv(s) && !s.waiting
    ensures Inv(SubmitStep(s, c))
  {
  }

  lemma ControllerKeeps(s: State, a: Action)
    requires Inv(s)
    ensures Inv(ControllerStep(s, a))
  {
  }

  lemma PollKeeps(s: State)
    requires Inv(s)
    ensures Inv(PollStep(s))
  {
    PollHitsExactly(s);
  }

  /** A synchronous host submits only when no command is outstanding. */
  function Do(s: State, step: Step): State
    requires s.sqTail < |s.sq| && s.ctlSqHead < |s.sq| && s.ctlCqTail < |s.cq| && s.cqHead < |s.cq|
  {
    match step
    case Submit(c) => if s.waiting then s else SubmitStep(s, c)
    case Controller(a) => ControllerStep(s, a)
    case Poll => if s.waiting then PollStep(s) else s
  }

  ghost function Run(s: State, steps: seq<Step>): (r: State)
    requires Inv(s)
    ensures Inv(r)
    decreases |steps|
  {
    if steps == [] then s
    else
      DoKeeps(s, steps[0]);
      Run(Do(s, steps[0]), steps[1..])
  }

  lemma DoKeeps(s: State, step: Step)
    requires Inv(s)
    ensures Inv(Do(s, step))
  {
    match step
    case Submit(c) => if !s.waiting { SubmitKeeps(s, c); }
    case Controller(a) => ControllerKeeps(s, a);
    case Poll => if s.waiting { PollKeeps(s); }
  }

  /** Safety of every run from the initial state, over any number of laps and for any behaviour of the
      controller. Each accepted completion is the one posted for the command of the same number, and a
      look matches only if there is a completion to accept. */
  lemma {:induction false} RunIsSafe(s: State, steps: seq<Step>)
    requires Init(s)
    ensures Inv(s)
    ensures var r := Run(s, steps);
      && |r.accepted| <= |r.posted| <= |r.submitted|
      && (forall k | 0 <= k < |r.accepted| ::
           r.accepted[k] == r.posted[k].entry && r.posted[k].command == r.submitted[k])
      && (PollHits(r) <==> |r.posted| == |r.accepted| + 1)
  {
    InitInv(s);
    PollHitsExactly(Run(s, steps));
  }

  lemma DoGrows(s: State, step: Step)
    requires Inv(s)
    ensures s.submitted <= Do(s, step).submitted && s.posted <= Do(s, step).posted && s.accepted <= Do(s, step).accepted
  {
  }

  /** No history is rewritten: what has been submitted, posted or accepted stays so. */
  lemma {:induction false} HistoryGrows(s: State, steps: seq<Step>)
    requires Inv(s)
    ensures s.submitted <= Run(s, steps).submitted
    ensures s.posted <= Run(s, steps).posted
    ensures s.accepted <= Run(s, steps).accepted
    decreases |steps|
  {
    if steps != [] {
      var mid, end := Do(s, steps[0]), Run(s, steps);
      DoKeeps(s, steps[0]);
      HistoryGrows(mid, steps[1..]);
      DoGrows(s, steps[0]);
      PrefixTrans(s.submitted, mid.submitted, end.submitted);
      PrefixTrans(s.posted, mid.posted, end.posted);
      PrefixTrans(s.accepted, mid.accepted, end.accepted);
    }
  }

  lemma PrefixTrans<T>(a: seq<T>, b: seq<T>, c: seq<T>)
    requires a <= b <= c
    ensures a <= c
  {
  }

  /** An outstanding command can always be completed: a fetch and a post, with whatever code and result the
      controller chooses, make the next look match, and the host then gets that code and result. */
  lemma OutstandingCompletes(s: State, code: nat, result: nat)
    requires Inv(s) && s.waiting && !Unseen(s)
    ensures var p := ControllerStep(ControllerStep(s, Fetch), Post(code, result));
      && Inv(p) && PollHits(p)
      && PollStep(p).accepted == s.accepted + [p.cq[p.cqHead]]
      && p.cq[p.cqHead].code == code && p.cq[p.cqHead].result == result
      && p.cq[p.cqHead].commandId == s.submitted[|s.submitted| - 1].commandId
  {
    var f := ControllerStep(s, Fetch);
    ControllerKeeps(s, Fetch);
    assert f.fetched.Some? && f.accepted == s.accepted && f.submitted == s.submitted && !Unseen(f) && f.waiting;
    FetchedCompletes(f, code, result);
  }

  lemma FetchedCompletes(s: State, code: nat, result: nat)
    requires Inv(s) && s.waiting && !Unseen(s) && s.fetched.Some?
    ensures var p := ControllerStep(s, Post(code, result));
      && Inv(p) && PollHits(p)
      && PollStep(p).accepted == s.accepted + [p.cq[p.cqHead]]
      && p.cq[p.cqHead].code == code && p.cq[p.cqHead].result == result
      && p.cq[p.cqHead].commandId == s.submitted[|s.submitted| - 1].commandId
  {
    ControllerKeeps(s, Post(code, result));
    PollHitsExactly(ControllerStep(s, Post(code, result)));
  }

  const USHRT_MAX: nat := 65535

  /** The identifier a command gets and the counter after it. At the maximum the counter stays where it is. */
  function GetCommandId(counter: nat): (nat, nat)
  {
    if counter < USHRT_MAX then (counter, counter + 1) else (0, counter)
  }

  ghost function CounterAfter(n: nat): nat
  {
    if n == 0 then 0 else GetCommandId(CounterAfter(n - 1)).1
  }

  /** The counter does not start over: from command 65535 on every command has identifier 0. */
  lemma {:induction false} CommandIdSticks(n: nat)
    ensures GetCommandId(CounterAfter(n)).0 == if n < USHRT_MAX then n else 0
    ensures CounterAfter(n) == if n < USHRT_MAX then n else USHRT_MAX
  {
    if n > 0 { CommandIdSticks(n - 1); }
  }

  datatype Outcome = Completed(result: nat) | IoError | Timeout

  /** What the host returns for a completion with this status code and result. */
  function Reply(code: nat, result: nat): Outcome
  {
    if code == 0 then Completed(result) else IoError
  }

  /** What a wait returns if the controller acts so between its looks, and has fetched the command already or not. */
  function Awaited(actions: seq<Action>, fetched: bool): Outcome
  {
    if actions == [] then Timeout
    else match actions[0]
      case Idle => Awaited(actions[1..], fetched)
      case Fetch => Awaited(actions[1..], true)
      case Post(code, result) => if fetched then Reply(code, result) else Awaited(actions[1..], false)
  }

  /** Action `i` is the first fetch, and action `j` the first post behind it. */
  ghost predicate Completes(actions: seq<Action>, i: nat, j: nat)
  {
    && i < j < |actions| && actions[i].Fetch? && actions[j].Post?
    && (forall k | 0 <= k < i :: !actions[k].Fetch?)
    && (forall k | i < k < j :: !actions[k].Post?)
  }

  lemma {:induction false} AwaitedFetched(actions: seq<Action>, j: nat)
    requires j < |actions| && actions[j].Post? && forall k | 0 <= k < j :: !actions[k].Post?
    ensures Awaited(actions, true) == Reply(actions[j].code, actions[j].result)
  {
    if j > 0 { AwaitedFetched(actions[1..], j - 1); }
  }

  lemma {:induction false} AwaitedNoPost(actions: seq<Action>)
    requires forall k | 0 <= k < |actions| :: !actions[k].Post?
    ensures Awaited(actions, true) == Timeout
  {
    if actions != [] { AwaitedNoPost(actions[1..]); }
  }

  /** A wait returns the code and result of the first post behind the first fetch. */
  lemma {:induction false} AwaitedIsFirst(actions: seq<Action>, i: nat, j: nat)
    requires Completes(actions, i, j)
    ensures Awaited(actions, false) == Reply(actions[j].code, actions[j].result)
  {
    if i == 0 {
      AwaitedFetched(actions[1..], j - 1);
    } else {
      AwaitedIsFirst(actions[1..], i - 1, j - 1);
    }
  }

  /** A wait times out if and only if there is no such pair. */
  lemma {:induction false} TimesOutExactly(actions: seq<Action>)
    ensures Awaited(actions, false) == Timeout <==> forall i: nat, j: nat :: !Completes(actions, i, j)
  {
    if i: nat, j: nat :| Completes(actions, i, j) {
      AwaitedIsFirst(actions, i, j);
    } else {
      NoPair(actions);
    }
  }

  lemma PairShifts(actions: seq<Action>, i: nat, j: nat)
    requires actions != [] && !actions[0].Fetch?
    ensures Completes(actions[1..], i, j) <==> Completes(actions, i + 1, j + 1)
  {
    assert forall k | 0 < k < |actions| :: actions[k] == actions[1..][k - 1];
  }

  lemma {:induction false} NoPair(actions: seq<Action>)
    requires forall i: nat, j: nat :: !Completes(actions, i, j)
    ensures Awaited(actions, false) == Timeout
  {
    if actions != [] {
      var rest := actions[1..];
      if actions[0].Fetch? {
        if k :| 0 <= k < |rest| && rest[k].Post? {
          var j := FirstPost(rest, k);
          assert Completes(actions, 0, j + 1);
        } else {
          AwaitedNoPost(rest);
        }
      } else {
        forall i: nat, j: nat ensures !Completes(rest, i, j) {
          PairShifts(actions, i, j);
        }
        NoPair(rest);
      }
    }
  }

  lemma {:induction false} FirstPost(actions: seq<Action>, k: nat) returns (j: nat)
    requires k < |actions| && actions[k].Post?
    ensures j <= k && actions[j].Post? && forall i | 0 <= i < j :: !actions[i].Post?
  {
    if i :| 0 <= i < k && actions[i].Post? {
      j := FirstPost(actions, i);
    } else {
      j := k;
    }
  }

  /** An outstanding command that has no completion yet. */
  ghost predicate Pending(s: State)
  {
    Inv(s) && s.waiting && !Unseen(s)
  }

  /** What one action of the controller does to an outstanding command. */
  lemma ActionExactly(s: State, a: Action)
    requires Pending(s)
    ensures var t := ControllerStep(s, a);
      && Inv(t) && t.waiting && (Unseen(t) <==> a.Post? && s.fetched.Some?)
      && (Unseen(t) ==> t.cq[t.cqHead].code == a.code && t.cq[t.cqHead].result == a.result)
      && (!Unseen(t) ==> (t.fetched.Some? <==> s.fetched.Some? || a.Fetch?))
  {
    ControllerKeeps(s, a);
  }

  class QueuePair {
    const depth: nat
    const sq: array<Command>
    const cq: array<Entry>
    var sqTail: nat
    var cqHead: nat
    var cqPhase: bool
    var sqDoorbell: nat
    var cqDoorbell: nat
    var idCounter: nat
    // the controller's side
    var ctlSqHead: nat
    var ctlCqTail: nat
    var ctlPhase: bool
    var fetched: Option<Command>
    ghost var model: State   // the fields above as a state of the protocol, with its history

    ghost predicate Tied()
      reads this, sq, cq
    {
      && Rings(model) && model.depth == depth && model.sq == sq[..] && model.cq == cq[..]
      && model.sqTail == sqTail && model.cqHead == cqHead && model.cqPhase == cqPhase
      && model.sqDoorbell == sqDoorbell && model.cqDoorbell == cqDoorbell
      && model.ctlSqHead == ctlSqHead && model.ctlCqTail == ctlCqTail && model.ctlPhase == ctlPhase
      && model.fetched == fetched
    }

    constructor (depth: nat)
      requires depth >= 2
      ensures Tied() && Init(model) && fresh(sq) && fresh(cq) && idCounter == 0
    {
      this.depth := depth;
      sq := new Command[depth](_ => Command(0, 0, []));
      cq := new Entry[depth](_ => Entry(0, 0, 0, false));
      sqTail, cqHead, cqPhase, sqDoorbell, cqDoorbell, idCounter := 0, 0, true, 0, 0, 0;
      ctlSqHead, ctlCqTail, ctlPhase, fetched := 0, 0, true, None;
      new;
      model := State(depth, sq[..], cq[..], 0, 0, true, 0, 0, 0, 0, true, None, false, 0, 0, [], [], []);
    }

    method SubmitCommand(command: Command)
      requires Tied()
      modifies this`sqTail, this`sqDoorbell, this`model, sq
      ensures Tied() && model == SubmitStep(old(model), command)
    {
      var tail := sqTail;
      sq[tail] := command;
      assert sq[..] == old(sq[..])[tail := command];
      tail := tail + 1;
      if tail == depth {
        tail := 0;
      }
      sqDoorbell := tail;
      sqTail := tail;
      model := SubmitStep(model, command);
    }

    /** The environment: one action of the controller. */
    method ControllerActs(a: Action)
      requires Tied()
      modifies this`ctlSqHead, this`ctlCqTail, this`ctlPhase, this`fetched, this`model, cq
      ensures Tied() && model == ControllerStep(old(model), a)
    {
      match a {
        case Idle =>
        case Fetch => ControllerFetches();
        case Post(code, result) => ControllerPosts(code, result);
      }
    }

    method ControllerFetches()
      requires Tied()
      modifies this`ctlSqHead, this`fetched, this`model
      ensures Tied() && model == ControllerStep(old(model), Fetch)
    {
      if fetched.None? && ctlSqHead != sqDoorbell {
        fetched := Some(sq[ctlSqHead]);
        ctlSqHead := if ctlSqHead + 1 == depth then 0 else ctlSqHead + 1;
      }
      model := ControllerStep(model, Fetch);
    }

    method ControllerPosts(code: nat, result: nat)
      requires Tied()
      modifies this`ctlCqTail, this`ctlPhase, this`fetched, this`model, cq
      ensures Tied() && model == ControllerStep(old(model), Post(code, result))
    {
      var next := if ctlCqTail + 1 == depth then 0 else ctlCqTail + 1;
      model := ControllerStep(model, Post(code, result));
      if fetched.None? || next == cqDoorbell {
        return;
      }
      var entry := Entry(fetched.value.commandId, code, result, ctlPhase);
      cq[ctlCqTail] := entry;
      assert cq[..] == old(cq[..])[ctlCqTail := entry];
      fetched := None;
      ctlPhase := if next == 0 then !ctlPhase else ctlPhase;
      ctlCqTail := next;
    }

    /** Advances past the slot at the head and rings the doorbell. */
    method Consume()
      requires Tied() && PollHits(model)
      modifies this`cqHead, this`cqPhase, this`cqDoorbell, this`model
      ensures Tied() && model == PollStep(old(model))
    {
      var head, phase := cqHead, cqPhase;
      head := head + 1;
      if head == depth {
        head := 0;
        phase := !phase;
      }
      cqDoorbell := head;
      cqHead := head;
      cqPhase := phase;
      model := PollStep(model);
    }

    /** One turn of the waiting loop: the controller acts, the host looks, and consumes what it finds. */
    method ActAndLook(a: Action) returns (hit: bool, outcome: Outcome)
      requires Tied() && Pending(model)
      modifies this`ctlSqHead, this`ctlCqTail, this`ctlPhase, this`fetched, this`cqHead, this`cqPhase, this`cqDoorbell,
        this`model, cq
      ensures Tied() && Inv(model)
      ensures hit <==> a.Post? && old(model).fetched.Some?
      ensures hit ==> outcome == Reply(a.code, a.result)
      ensures !hit ==> Pending(model) && (model.fetched.Some? <==> old(model).fetched.Some? || a.Fetch?)
      ensures model.submitted == old(model).submitted && old(model).posted <= model.posted
      ensures !hit ==> model.waiting && model.accepted == old(model).accepted
      ensures hit ==> !model.waiting && Answered(model, outcome)
    {
      ActionExactly(model, a);
      ControllerActs(a);
      PollHitsExactly(model);
      hit, outcome := Look();
    }

    /** The host looks at the slot at the head, and consumes it if its phase is the expected one. */
    method Look() returns (hit: bool, outcome: Outcome)
      requires Tied() && Inv(model) && model.waiting
      modifies this`cqHead, this`cqPhase, this`cqDoorbell, this`model
      ensures Tied() && Inv(model)
      ensures model.submitted == old(model).submitted && model.posted == old(model).posted
      ensures !hit ==> model == old(model)
      ensures hit ==> !model.waiting && Answered(model, outcome)
      ensures hit <==> PollHits(old(model))
      ensures outcome == Reply(old(model).cq[old(model).cqHead].code, old(model).cq[old(model).cqHead].result)
    {
      var entry := cq[cqHead];
      hit := entry.phase == cqPhase;
      outcome := if entry.code != 0 then IoError else Completed(entry.result);
      if hit {
        PollAnswers(model, outcome);
        Consume();
      }
    }

    /** Issues one command and waits for its completion. `actions` is what the controller does between the
        looks, one action each; the wait times out when they are used up. What it returns follows from the actions
        alone. If it does not time out, the host has accepted the completion that the controller posted for this very
        command. */
    method SubmitSync(command: Command, actions: seq<Action>) returns (outcome: Outcome)
      requires Tied() && Inv(model) && !model.waiting
      modifies this, sq, cq
      ensures Tied() && Inv(model)
      ensures idCounter == GetCommandId(old(idCounter)).1 && old(model).posted <= model.posted
      ensures model.submitted == old(model).submitted + [command.(commandId := GetCommandId(old(idCounter)).0)]
      ensures outcome == Awaited(actions, false)
      ensures outcome.Timeout? ==> model.waiting && model.accepted == old(model).accepted
      ensures !outcome.Timeout? ==> !model.waiting && Answered(model, outcome)
    {
      var (id, counter) := GetCommandId(idCounter);
      idCounter := counter;
      SubmitKeeps(model, command.(commandId := id));
      SubmitCommand(command.(commandId := id));
      ghost var start := model;
      for i := 0 to |actions|
        invariant Tied() && Pending(model) && idCounter == counter
        invariant Awaited(actions, false) == Awaited(actions[i..], model.fetched.Some?)
        invariant model.accepted == start.accepted && model.submitted == start.submitted && start.posted <= model.posted
      {
        var hit;
        hit, outcome := ActAndLook(actions[i]);
        if hit {
          return;
        }
      }
      outcome := Timeout;
    }
  }

  /** The last command submitted is the last one posted and accepted, and `outcome` says what the controller
      posted for it. */
  ghost predicate Answered(s: State, outcome: Outcome)
  {
    && 0 < |s.submitted| == |s.posted| == |s.accepted|
    && var p := s.posted[|s.posted| - 1];
       && p.command == s.submitted[|s.submitted| - 1]
       && outcome == if p.entry.code == 0 then Completed(p.entry.result) else IoError
  }

  lemma PollAnswers(s: State, outcome: Outcome)
    requires Inv(s) && s.waiting && PollHits(s)
    requires outcome == if s.cq[s.cqHead].code == 0 then Completed(s.cq[s.cqHead].result) else IoError
    ensures Inv(PollStep(s)) && !PollStep(s).waiting && Answered(PollStep(s), outcome)
  {
    PollHitsExactly(s);
    PollKeeps(s);
  }

  /** A whole session of synchronous commands, which ends with the first that times out. Outcome k follows from what the
      controller does while command k is outstanding, and is what it posted for command k. */
  method Session(depth: nat, commands: seq<Command>, actions: seq<seq<Action>>)
    returns (outcomes: seq<Outcome>, ghost end: State)
    requires depth >= 2 && |commands| == |actions|
    ensures |outcomes| <= |commands| && Inv(end)
    ensures |outcomes| < |commands| ==> |outcomes| > 0 && outcomes[|outcomes| - 1].Timeout?
    ensures forall k | 0 <= k < |outcomes| :: outcomes[k] == Awaited(actions[k], false)
    ensures (forall k | 0 <= k < |commands| :: CompletesSomewhere(actions[k])) ==> |outcomes| == |commands|
    ensures forall k | 0 <= k < |outcomes| && !outcomes[k].Timeout? ::
      k < |end.posted| && k < |end.submitted| && Reports(end, k, commands[k], outcomes[k])
  {
    var q := new QueuePair(depth);
    InitInv(q.model);
    outcomes := [];
    for i := 0 to |commands|
      invariant q.Tied() && Inv(q.model) && !q.model.waiting && |outcomes| == i == |q.model.submitted|
      invariant fresh(q) && fresh(q.sq) && fresh(q.cq)
      invariant AllAwaited(actions, outcomes, i) && AllReport(q.model, commands, outcomes, i)
    {
      ghost var before, was := q.model, outcomes;
      var outcome := q.SubmitSync(commands[i], actions[i]);
      outcomes := outcomes + [outcome];
      OneMoreReported(before, q.model, commands, actions, was, outcome, i);
      if outcome.Timeout? {
        TimesOutExactly(actions[i]);
        end := q.model;
        return;
      }
    }
    end := q.model;
  }

  /** The first `n` outcomes follow from the actions. */
  ghost predicate AllAwaited(actions: seq<seq<Action>>, outcomes: seq<Outcome>, n: nat)
  {
    n <= |actions| && n <= |outcomes| && forall k | 0 <= k < n :: outcomes[k] == Awaited(actions[k], false)
  }

  lemma OneMoreReported(s: State, t: State, commands: seq<Command>, actions: seq<seq<Action>>, outcomes: seq<Outcome>,
                        outcome: Outcome, n: nat)
    requires n == |outcomes| < |commands| == |actions| && n == |s.submitted| && s.posted <= t.posted
    requires AllAwaited(actions, outcomes, n) && AllReport(s, commands, outcomes, n)
    requires outcome == Awaited(actions[n], false) && |t.submitted| == n + 1
    requires t.submitted[n].opcode == commands[n].opcode && t.submitted[n].payload == commands[n].payload
    requires !outcome.Timeout? ==> Answered(t, outcome)
    ensures AllAwaited(actions, outcomes + [outcome], n + 1) && AllReport(t, commands, outcomes + [outcome], n)
    ensures !outcome.Timeout? ==> AllReport(t, commands, outcomes + [outcome], n + 1)
  {
    var all := outcomes + [outcome];
    assert all[..n] == outcomes;
    ReportsStay(s, t, commands, all, n);
    if !outcome.Timeout? {
      assert Reports(t, n, commands[n], all[n]);
    }
  }

  /** The first `n` completions read as their outcomes. */
  ghost predicate AllReport(s: State, commands: seq<Command>, outcomes: seq<Outcome>, n: nat)
  {
    n <= |s.posted| && n <= |commands| && n <= |outcomes| &&
    forall k | 0 <= k < n :: Reports(s, k, commands[k], outcomes[k])
  }

  lemma ReportsStay(s: State, t: State, commands: seq<Command>, outcomes: seq<Outcome>, n: nat)
    requires n <= |outcomes| && AllReport(s, commands, outcomes[..n], n) && s.posted <= t.posted
    ensures AllReport(t, commands, outcomes, n)
  {
    forall k | 0 <= k < n ensures Reports(t, k, commands[k], outcomes[k]) {
      assert Reports(s, k, commands[k], outcomes[..n][k]) && s.posted[k] == t.posted[k];
    }
  }

  /** The controller fetches and then posts. */
  ghost predicate CompletesSomewhere(actions: seq<Action>)
  {
    exists i: nat, j: nat :: Completes(actions, i, j)
  }

  /** Completion `k` was posted for `command` and reads as `outcome`. */
  ghost predicate Reports(s: State, k: nat, command: Command, outcome: Outcome)
    requires k < |s.posted|
  {
    && s.posted[k].command.opcode == command.opcode && s.posted[k].command.payload == command.payload
    && outcome == if s.posted[k].entry.code == 0 then Completed(s.posted[k].entry.result) else IoError
  }
}
