/** Every run of the tunnel manager: user calls, network callbacks, and events posted by other threads, in any order. */
module TunnelRuns {
  import opened Wrappers
  import opened TunnelManager

  datatype Action =
    | AddServer(addr: ServerAddr)
    | AddMirror(addr: ServerAddr, mirror: Mirror)
    | Clean
    | SetMode(mode: Mode)
    | Reachable(reachable: bool)
    | ClientCallback(connected: bool)   // posted at any time, even by a client deleted since
    | MirrorCallback(haveUdp: bool)     // one for each started test
    | Iterate                           // one turn of the event loop

  // The one undefined step: advancing a position in the mirror list that cleaning has invalidated.
  predicate Defined(t: Tunnel, act: Action) { act.Iterate? && t.queue != [] ==> EventDefined(t, t.queue[0]) }

  function Step(t: Tunnel, act: Action): Tunnel
    requires Defined(t, act)
  {
    match act
    case AddServer(addr) => AddServerTo(t, addr)
    case AddMirror(addr, mirror) => AddMirrorTo(t, addr, mirror)
    case Clean => Cleaned(t)
    case SetMode(mode) => SetModeOf(t, mode)
    case Reachable(reachable) => NetworkReachableIn(t, reachable)
    case ClientCallback(connected) => t.(queue := t.queue + [TunnelEvent(connected)])
    case MirrorCallback(haveUdp) =>
      if t.outstanding == 0 then t else t.(queue := t.queue + [MirrorEvent(haveUdp)], outstanding := t.outstanding - 1)
    case Iterate => if t.queue == [] then t else PopEvent(t)
  }

  predicate RunDefined(t: Tunnel, acts: seq<Action>)
    decreases acts
  {
    acts == [] || (Defined(t, acts[0]) && RunDefined(Step(t, acts[0]), acts[1..]))
  }

  function Run(t: Tunnel, acts: seq<Action>): Tunnel
    requires RunDefined(t, acts)
    decreases acts
  {
    if acts == [] then t else Run(Step(t, acts[0]), acts[1..])
  }

  /** The state after the first n steps of a run. */
  function After(t: Tunnel, acts: seq<Action>, n: nat): Tunnel
    requires RunDefined(t, acts) && n <= |acts|
  {
    RunTake(t, acts, n); Run(t, acts[..n])
  }

  lemma {:induction false} RunTake(t: Tunnel, acts: seq<Action>, n: nat)
    requires RunDefined(t, acts) && n <= |acts|
    ensures RunDefined(t, acts[..n])
    decreases n
  {
    if n > 0 {
      RunTake(Step(t, acts[0]), acts[1..], n - 1);
      assert acts[1..][..n - 1] == acts[..n][1..];
    }
  }

  lemma AfterCons(t: Tunnel, acts: seq<Action>, n: nat)
    requires RunDefined(t, acts) && n < |acts|
    ensures After(t, acts, 0) == t
    ensures After(t, acts, n + 1) == After(Step(t, acts[0]), acts[1..], n)
  {
    RunTake(t, acts, n + 1);
    RunTake(Step(t, acts[0]), acts[1..], n);
    assert acts[1..][..n] == acts[..n + 1][1..];
  }

  // ---- safety

  lemma StepKeepsTunnelOk(t: Tunnel, act: Action)
    requires TunnelOk(t) && Defined(t, act)
    ensures TunnelOk(Step(t, act))
  {
  }

  lemma {:induction false} TunnelAlwaysOk(t: Tunnel, acts: seq<Action>)
    requires TunnelOk(t) && RunDefined(t, acts)
    ensures TunnelOk(Run(t, acts))
    decreases acts
  {
    if acts != [] {
      StepKeepsTunnelOk(t, acts[0]);
      TunnelAlwaysOk(Step(t, acts[0]), acts[1..]);
    }
  }

  // ---- detection, on runs that do not remove servers

  function MirrorEvents(queue: seq<Event>): nat {
    if queue == [] then 0 else (if queue[0].MirrorEvent? then 1 else 0) + MirrorEvents(queue[1..])
  }

  lemma {:induction false} MirrorEventsAppend(queue: seq<Event>, ev: Event)
    ensures MirrorEvents(queue + [ev]) == MirrorEvents(queue) + if ev.MirrorEvent? then 1 else 0
  {
    if queue != [] {
      assert (queue + [ev])[1..] == queue[1..] + [ev];
      MirrorEventsAppend(queue[1..], ev);
    }
  }

  /** Tests that have not been processed yet. */
  function Pending(t: Tunnel): nat { t.outstanding + MirrorEvents(t.queue) }

  function UpTo(n: nat): (r: seq<nat>)
    ensures |r| == n
  {
    seq(n, i => i)
  }

  /** Exactly one test is pending while detecting, none otherwise; the mirrors tried are the first ones, in order. */
  predicate DetectionOk(t: Tunnel) {
    && (t.mode == Auto ==> t.mirrors != [])
    && Pending(t) == (if t.state == Autodetecting then 1 else 0)
    && (t.state == Autodetecting ==>
          t.current.Some? && t.current.value < |t.mirrors| && t.tried == UpTo(t.current.value + 1))
  }

  lemma StepKeepsDetectionOk(t: Tunnel, act: Action)
    requires TunnelOk(t) && DetectionOk(t) && act != Clean
    ensures Defined(t, act) && DetectionOk(Step(t, act))
  {
    match act
    case ClientCallback(connected) => MirrorEventsAppend(t.queue, TunnelEvent(connected));
    case MirrorCallback(haveUdp) => MirrorEventsAppend(t.queue, MirrorEvent(haveUdp));
    case Iterate => if t.queue != [] { TurnKeepsDetectionOk(t); }
    case _ =>
  }

  lemma TurnKeepsDetectionOk(t: Tunnel)
    requires TunnelOk(t) && DetectionOk(t) && t.queue != []
    ensures Defined(t, Iterate) && DetectionOk(Step(t, Iterate))
  {
    ProcessKeepsQueue(t.(queue := t.queue[1..]), t.queue[0]);
  }

  // Every run of a new manager starts from here.
  lemma NewTunnelOk()
    ensures TunnelOk(NEW_TUNNEL) && DetectionOk(NEW_TUNNEL) && Healthy(NEW_TUNNEL) && Backed(NEW_TUNNEL)
  {
  }

  // Without removals every run is defined, and detection is never lost nor doubled.
  lemma {:induction false} DetectionAlwaysOk(t: Tunnel, acts: seq<Action>)
    requires TunnelOk(t) && DetectionOk(t) && Clean !in acts
    ensures RunDefined(t, acts) && TunnelOk(Run(t, acts)) && DetectionOk(Run(t, acts))
    decreases acts
  {
    if acts != [] {
      StepKeepsDetectionOk(t, acts[0]);
      StepKeepsTunnelOk(t, acts[0]);
      DetectionAlwaysOk(Step(t, acts[0]), acts[1..]);
    }
  }

  // While detecting, only the answer of the current test moves the detection.
  predicate AnswersMirror(t: Tunnel, act: Action) { act == Iterate && t.queue != [] && t.queue[0].MirrorEvent? }

  lemma OnlyAnswersMoveDetection(t: Tunnel, act: Action)
    requires TunnelOk(t) && DetectionOk(t) && t.state == Autodetecting && act != Clean
    ensures Defined(t, act)
    ensures var after := Step(t, act);
      if !AnswersMirror(t, act) then
        && after.state == Autodetecting && after.mode == Auto && after.current == t.current && after.tried == t.tried
        && after.client.Some? == t.client.Some? && t.mirrors <= after.mirrors
      else if t.queue[0].haveUdp then
        after.state == Disabled && after.client == None
      else if t.current.value + 1 < |t.mirrors| then
        after.state == Autodetecting && after.current == Some(t.current.value + 1) && after.tried == UpTo(t.current.value + 2)
      else
        after.state == (if t.client.None? then Connecting else Ready) && after.client == Some(t.servers)
  {
    StepKeepsDetectionOk(t, act);
  }

  // ---- how a detection ends: the answers that a run takes off the queue while detecting decide, whatever comes between

  /** How many steps of the run belong to the detection under way, the one that ends it included. */
  function DetectingSteps(t: Tunnel, acts: seq<Action>): (n: nat)
    requires RunDefined(t, acts)
    ensures n <= |acts|
    decreases acts
  {
    if acts == [] || t.state != Autodetecting then 0 else 1 + DetectingSteps(Step(t, acts[0]), acts[1..])
  }

  /** The answers taken off the queue during those steps. */
  function Answers(t: Tunnel, acts: seq<Action>): seq<bool>
    requires RunDefined(t, acts)
    decreases acts
  {
    if acts == [] || t.state != Autodetecting then []
    else (if AnswersMirror(t, acts[0]) then [t.queue[0].haveUdp] else []) + Answers(Step(t, acts[0]), acts[1..])
  }

  /** From t, the answers lead to end: the first success disables the tunnel, the failure of every mirror that was in the list
      by then starts it, and otherwise the next mirror is under test; the mirrors tried are one for each answer, in order. */
  predicate Decides(t: Tunnel, answers: seq<bool>, end: Tunnel)
    requires t.current.Some?
  {
    var tested := t.current.value + |answers|;
    && t.mirrors <= end.mirrors && tested <= |end.mirrors|
    && (forall i :: 0 <= i < |answers| - 1 ==> !answers[i])
    && end.state == (if true in answers then Disabled
                     else if tested < |end.mirrors| then Autodetecting
                     else if t.client.None? then Connecting else Ready)
    && end.tried == UpTo(if end.state == Autodetecting then tested + 1 else tested)
    && (end.state == Autodetecting ==> end.current == Some(tested))
    && (end.state == Disabled ==> end.client == None)
    && (end.state == Connecting || end.state == Ready ==> end.client == Some(end.servers))
  }

  // A step that is no answer, then the rest of the run.
  lemma DecidesLater(t: Tunnel, next: Tunnel, answers: seq<bool>, end: Tunnel)
    requires t.current.Some? && next.current == t.current && next.client.Some? == t.client.Some? && t.mirrors <= next.mirrors
    requires Decides(next, answers, end)
    ensures Decides(t, answers, end)
  {
  }

  // A failure with a mirror left, then the rest of the run.
  lemma DecidesAfterFailure(t: Tunnel, next: Tunnel, answers: seq<bool>, end: Tunnel)
    requires t.current.Some? && next.current == Some(t.current.value + 1)
    requires next.client.Some? == t.client.Some? && next.mirrors == t.mirrors
    requires Decides(next, answers, end)
    ensures Decides(t, [false] + answers, end)
  {
    assert true in [false] + answers <==> true in answers;
  }

  lemma TriedSoFar(t: Tunnel)
    requires TunnelOk(t) && DetectionOk(t) && t.state == Autodetecting
    ensures Decides(t, [], t)
  {
  }

  // In every run without removals, with any calls, callbacks and new mirrors in between.
  lemma {:induction false} DetectionOutcome(t: Tunnel, acts: seq<Action>)
    requires TunnelOk(t) && DetectionOk(t) && t.state == Autodetecting && Clean !in acts
    ensures RunDefined(t, acts)
    ensures Decides(t, Answers(t, acts), After(t, acts, DetectingSteps(t, acts)))
    ensures After(t, acts, DetectingSteps(t, acts)).state == Autodetecting ==> DetectingSteps(t, acts) == |acts|
    decreases acts
  {
    hide TunnelOk, DetectionOk, Decides, Pending, UpTo;
    DetectionAlwaysOk(t, acts);
    if acts == [] {
      TriedSoFar(t);
    } else {
      var next, rest := Step(t, acts[0]), acts[1..];
      StepKeepsDetectionOk(t, acts[0]);
      StepKeepsTunnelOk(t, acts[0]);
      OneStepDecides(t, acts[0]);
      AfterCons(t, acts, DetectingSteps(next, rest));
      if next.state == Autodetecting {
        DetectionOutcome(next, rest);
        var answers, end := Answers(next, rest), After(next, rest, DetectingSteps(next, rest));
        if AnswersMirror(t, acts[0]) {
          DecidesAfterFailure(t, next, answers, end);
        } else {
          DecidesLater(t, next, answers, end);
          assert [] + answers == answers;
        }
      } else {
        assert rest[..0] == [];
        assert Answers(t, acts) == [t.queue[0].haveUdp];
      }
    }
  }

  // One step of a detection: it goes on, goes on with the next mirror, or ends.
  lemma OneStepDecides(t: Tunnel, act: Action)
    requires TunnelOk(t) && DetectionOk(t) && t.state == Autodetecting && act != Clean
    ensures Defined(t, act) && t.current.Some?
    ensures var next := Step(t, act);
      if next.state != Autodetecting then
        AnswersMirror(t, act) && Decides(t, [t.queue[0].haveUdp], next)
      else
        && next.client.Some? == t.client.Some? && t.mirrors <= next.mirrors
        && if AnswersMirror(t, act) then !t.queue[0].haveUdp && next.current == Some(t.current.value + 1) && next.mirrors == t.mirrors
           else next.current == t.current
  {
    hide Pending;
    OnlyAnswersMoveDetection(t, act);
  }

  // ---- an answer in the queue is taken: its position counts the turns of the event loop still needed

  function Turns(acts: seq<Action>): nat {
    if acts == [] then 0 else (if acts[0] == Iterate then 1 else 0) + Turns(acts[1..])
  }

  /** The one unprocessed test has answered haveUdp, and the answer is at position p of the queue. */
  predicate AnswerAt(t: Tunnel, haveUdp: bool, p: nat) {
    && t.state == Autodetecting && p < |t.queue| && t.queue[p] == MirrorEvent(haveUdp)
    && forall i :: 0 <= i < p ==> t.queue[i].TunnelEvent?
  }

  lemma {:induction false} NoMirrorEvents(queue: seq<Event>)
    ensures MirrorEvents(queue) == 0 <==> forall e <- queue :: !e.MirrorEvent?
  {
    if queue != [] {
      NoMirrorEvents(queue[1..]);
      assert forall e <- queue :: e == queue[0] || e in queue[1..];
    }
  }

  // The position of the first answer in a queue.
  lemma {:induction false} FirstAnswer(queue: seq<Event>) returns (p: nat)
    requires MirrorEvents(queue) > 0
    ensures p < |queue| && queue[p].MirrorEvent? && forall i :: 0 <= i < p ==> queue[i].TunnelEvent?
  {
    if queue[0].MirrorEvent? {
      p := 0;
    } else {
      p := FirstAnswer(queue[1..]);
      p := p + 1;
    }
  }

  // While detecting, the test is still out and its answer will be queued, or the answer is in the queue.
  lemma PendingTest(t: Tunnel)
    requires TunnelOk(t) && DetectionOk(t) && t.state == Autodetecting
    ensures t.outstanding == 1 ==> forall haveUdp :: AnswerAt(Step(t, MirrorCallback(haveUdp)), haveUdp, |t.queue|)
    ensures t.outstanding == 0 ==> exists haveUdp, p :: AnswerAt(t, haveUdp, p)
  {
    if t.outstanding == 1 {
      NoMirrorEvents(t.queue);
      forall i | 0 <= i < |t.queue| ensures t.queue[i].TunnelEvent? { assert t.queue[i] in t.queue; }
    } else {
      var p := FirstAnswer(t.queue);
      assert AnswerAt(t, t.queue[p].haveUdp, p);
    }
  }

  lemma AnswerMovesUp(t: Tunnel, act: Action, haveUdp: bool, p: nat)
    requires TunnelOk(t) && AnswerAt(t, haveUdp, p) && !(act == Iterate && p == 0)
    ensures Defined(t, act) && AnswerAt(Step(t, act), haveUdp, if act == Iterate then p - 1 else p)
    ensures Step(t, act).current == if act == Clean then None else t.current
  {
  }

  // Detection does not hang: once a test has answered, any run with enough turns of the event loop takes the answer.
  lemma {:induction false} QueuedAnswerIsTaken(t: Tunnel, acts: seq<Action>, haveUdp: bool, p: nat)
    requires TunnelOk(t) && DetectionOk(t) && AnswerAt(t, haveUdp, p) && Clean !in acts
    ensures RunDefined(t, acts)
    ensures Turns(acts) > p <==> Answers(t, acts) != []
    ensures Turns(acts) > p ==> Answers(t, acts)[0] == haveUdp
    decreases acts
  {
    hide TunnelOk, DetectionOk, Step;
    DetectionAlwaysOk(t, acts);
    if acts != [] && !(acts[0] == Iterate && p == 0) {
      AnswerMovesUp(t, acts[0], haveUdp, p);
      StepKeepsDetectionOk(t, acts[0]);
      StepKeepsTunnelOk(t, acts[0]);
      QueuedAnswerIsTaken(Step(t, acts[0]), acts[1..], haveUdp, if acts[0] == Iterate then p - 1 else p);
    }
  }

  // ---- removing servers, and the network callback without mirrors

  /** Detecting, with no test that could end it. */
  predicate Stuck(t: Tunnel) { t.state == Autodetecting && t.mode == Auto && Pending(t) == 0 }

  lemma StuckStep(t: Tunnel, act: Action)
    requires Stuck(t) && Defined(t, act)
    ensures Stuck(Step(t, act))
  {
    match act
    case ClientCallback(connected) => MirrorEventsAppend(t.queue, TunnelEvent(connected));
    case Iterate =>
      if t.queue != [] { ProcessKeepsQueue(t.(queue := t.queue[1..]), t.queue[0]); }
    case _ =>
  }

  // No call, callback or event ever ends such a detection: the mode can no longer be changed.
  lemma {:induction false} StuckForever(t: Tunnel, acts: seq<Action>)
    requires Stuck(t) && RunDefined(t, acts)
    ensures Stuck(Run(t, acts))
    decreases acts
  {
    if acts != [] {
      StuckStep(t, acts[0]);
      StuckForever(Step(t, acts[0]), acts[1..]);
    }
  }

  // The network callback gets stuck exactly when it starts a detection without any mirror.
  lemma ReachableGetsStuck(t: Tunnel)
    requires TunnelOk(t) && Pending(t) == (if t.state == Autodetecting then 1 else 0)
    ensures Stuck(Step(t, Reachable(true))) <==> ReachableWithoutMirrors(t)
  {
  }

  predicate ReachableWithoutMirrors(t: Tunnel) { t.mode == Auto && (t.state == Disabled || t.state == Ready) && t.mirrors == [] }

  /** One test is pending exactly while detecting, and a failure finds a valid position in the mirror list. */
  predicate Healthy(t: Tunnel) {
    && Pending(t) == (if t.state == Autodetecting then 1 else 0)
    && (t.state == Autodetecting && MirrorEvent(true) !in t.queue ==> t.current.Some? && t.current.value < |t.mirrors|)
  }

  /** Servers are removed only while there is no detection, or when its success is already in the queue; and the network
      callback does not come in mode auto, at rest, without mirrors. */
  predicate Harmless(t: Tunnel, act: Action) {
    match act
    case Clean => t.state == Autodetecting ==> MirrorEvent(true) in t.queue
    case Reachable(reachable) => !(reachable && ReachableWithoutMirrors(t))
    case _ => true
  }

  lemma {:induction false} MirrorEventsCount(queue: seq<Event>, ev: Event)
    requires ev.MirrorEvent? && ev in queue
    ensures MirrorEvents(queue) >= 1
    ensures MirrorEvents(queue) == 1 ==> forall e <- queue :: e.MirrorEvent? ==> e == ev
  {
    if queue[0].MirrorEvent? {
      if ev in queue[1..] { MirrorEventsCount(queue[1..], ev); }
      NoMirrorEvents(queue[1..]);
      assert forall e <- queue :: e == queue[0] || e in queue[1..];
    } else {
      MirrorEventsCount(queue[1..], ev);
      assert forall e <- queue :: e == queue[0] || e in queue[1..];
    }
  }

  // The queue holds at most the one answer, so a failure at its head is no success further back.
  lemma HealthyIsDefined(t: Tunnel, act: Action)
    requires TunnelOk(t) && Healthy(t)
    ensures Defined(t, act)
  {
    if t.queue != [] && t.queue[0] == MirrorEvent(false) { MirrorEventsCount(t.queue, MirrorEvent(false)); }
  }

  lemma TurnKeepsHealthy(t: Tunnel)
    requires TunnelOk(t) && Healthy(t) && t.queue != []
    ensures Defined(t, Iterate) && Healthy(Step(t, Iterate))
  {
    HealthyIsDefined(t, Iterate);
    ProcessKeepsQueue(t.(queue := t.queue[1..]), t.queue[0]);
    assert forall e <- t.queue :: e == t.queue[0] || e in t.queue[1..];
  }

  // A healthy manager stays healthy over exactly the harmless steps.
  lemma HealthyStep(t: Tunnel, act: Action)
    requires TunnelOk(t) && Healthy(t)
    ensures Defined(t, act) && (Healthy(Step(t, act)) <==> Harmless(t, act))
  {
    HealthyIsDefined(t, act);
    match act
    case ClientCallback(connected) => MirrorEventsAppend(t.queue, TunnelEvent(connected));
    case MirrorCallback(haveUdp) => MirrorEventsAppend(t.queue, MirrorEvent(haveUdp));
    case Iterate => if t.queue != [] { TurnKeepsHealthy(t); }
    case Clean => if MirrorEvent(true) in t.queue { MirrorEventsCount(t.queue, MirrorEvent(true)); }
    case _ =>
  }

  /** Every step of the run is harmless. */
  predicate AllHarmless(t: Tunnel, acts: seq<Action>)
    decreases acts
  {
    acts == [] || (Defined(t, acts[0]) && Harmless(t, acts[0]) && AllHarmless(Step(t, acts[0]), acts[1..]))
  }

  /** The run is defined, and every state on its way is healthy. */
  predicate StaysHealthy(t: Tunnel, acts: seq<Action>)
    decreases acts
  {
    Healthy(t) && (acts == [] || (Defined(t, acts[0]) && StaysHealthy(Step(t, acts[0]), acts[1..])))
  }

  // Over whole runs, removals and network callbacks included: exactly the harmless ones keep the detection sound throughout.
  lemma {:induction false} StaysHealthyExactly(t: Tunnel, acts: seq<Action>)
    requires TunnelOk(t) && Healthy(t)
    ensures StaysHealthy(t, acts) <==> AllHarmless(t, acts)
    ensures AllHarmless(t, acts) ==> RunDefined(t, acts) && TunnelOk(Run(t, acts)) && Healthy(Run(t, acts))
    decreases acts
  {
    hide TunnelOk, Healthy, Harmless;
    if acts != [] {
      HealthyStep(t, acts[0]);
      StepKeepsTunnelOk(t, acts[0]);
      if Harmless(t, acts[0]) { StaysHealthyExactly(Step(t, acts[0]), acts[1..]); }
    }
  }

  // What a removal does at once: with the test still out it gets stuck, with a failure next in the queue it is undefined.
  lemma CleanEffect(t: Tunnel)
    requires TunnelOk(t) && Healthy(t)
    ensures Stuck(Step(t, Clean)) <==> t.state == Autodetecting && t.outstanding == 1
    ensures !Defined(Step(t, Clean), Iterate) <==> t.state == Autodetecting && t.queue != [] && t.queue[0] == MirrorEvent(false)
  {
  }

  // A failure in the queue with no valid position: the run goes on exactly as long as the event loop does not reach it.
  lemma {:induction false} LostPosition(t: Tunnel, acts: seq<Action>, p: nat)
    requires TunnelOk(t) && AnswerAt(t, false, p) && t.current.None?
    ensures RunDefined(t, acts) <==> Turns(acts) <= p
    decreases acts
  {
    hide TunnelOk, Step;
    if acts != [] && !(acts[0] == Iterate && p == 0) {
      AnswerMovesUp(t, acts[0], false, p);
      StepKeepsTunnelOk(t, acts[0]);
      LostPosition(Step(t, acts[0]), acts[1..], if acts[0] == Iterate then p - 1 else p);
    }
  }

  // A harmful removal: stuck for good, or defined only until the event loop gets to the failure at position p.
  lemma HarmfulClean(t: Tunnel) returns (p: nat)
    requires TunnelOk(t) && Healthy(t) && !Harmless(t, Clean)
    ensures Stuck(Step(t, Clean)) || forall acts :: RunDefined(Step(t, Clean), acts) <==> Turns(acts) <= p
  {
    p := 0;
    if t.outstanding == 0 {
      p := FirstAnswer(t.queue);
      assert t.queue[p] in t.queue;
      StepKeepsTunnelOk(t, Clean);
      forall acts ensures RunDefined(Step(t, Clean), acts) <==> Turns(acts) <= p { LostPosition(Step(t, Clean), acts, p); }
    }
  }

  lemma {:induction false} QuietIsHarmless(t: Tunnel, acts: seq<Action>)
    requires TunnelOk(t) && Healthy(t) && Clean !in acts && Reachable(true) !in acts
    ensures AllHarmless(t, acts)
    decreases acts
  {
    hide TunnelOk, Healthy;
    if acts != [] {
      HealthyStep(t, acts[0]);
      StepKeepsTunnelOk(t, acts[0]);
      QuietIsHarmless(Step(t, acts[0]), acts[1..]);
    }
  }

  lemma {:induction false} OnlyTurns(n: nat) returns (acts: seq<Action>)
    ensures Turns(acts) == n && forall a <- acts :: a == Iterate
  {
    acts := [];
    if n > 0 {
      var rest := OnlyTurns(n - 1);
      acts := [Iterate] + rest;
      assert acts[1..] == rest;
    }
  }

  // When removing the servers does no harm: every run that follows, without another removal and without the network callback,
  // is defined and never stuck, exactly when no detection is under way or its success is already in the queue.
  lemma CleanIsHarmlessExactly(t: Tunnel)
    requires TunnelOk(t) && Healthy(t)
    ensures (t.state == Autodetecting ==> MirrorEvent(true) in t.queue) <==>
              forall acts | Clean !in acts && Reachable(true) !in acts ::
                RunDefined(Step(t, Clean), acts) && !Stuck(Run(Step(t, Clean), acts))
  {
    hide TunnelOk, Healthy, Step;
    if Harmless(t, Clean) {
      HealthyStep(t, Clean);
      StepKeepsTunnelOk(t, Clean);
      forall acts | Clean !in acts && Reachable(true) !in acts
        ensures RunDefined(Step(t, Clean), acts) && !Stuck(Run(Step(t, Clean), acts))
      {
        QuietIsHarmless(Step(t, Clean), acts);
        StaysHealthyExactly(Step(t, Clean), acts);
        HealthyIsNotStuck(Run(Step(t, Clean), acts));
      }
    } else {
      var p := HarmfulClean(t);
      var acts: seq<Action> := [];
      if !Stuck(Step(t, Clean)) { acts := OnlyTurns(p + 1); }
      assert Clean !in acts && Reachable(true) !in acts;
      assert !RunDefined(Step(t, Clean), acts) || Stuck(Run(Step(t, Clean), acts));
    }
  }

  lemma HealthyIsNotStuck(t: Tunnel)
    requires Healthy(t)
    ensures !Stuck(t)
  {
  }

  // ---- the RTP factories create sockets with the client: when they have one

  predicate Backed(t: Tunnel) { t.factories ==> t.client.Some? }

  /** The success of a detection that started from the ready state. */
  predicate DeletesClient(t: Tunnel, act: Action) {
    act == Iterate && t.queue != [] && t.queue[0] == MirrorEvent(true) && t.state == Autodetecting && t.client.Some?
  }

  /** Switching the tunnel on, or the failure of the last mirror. */
  predicate StartsClient(t: Tunnel, act: Action) {
    || (act == SetMode(Enable) && t.state == Disabled)
    || (act == Iterate && t.queue != [] && t.queue[0] == MirrorEvent(false) && t.state == Autodetecting
        && t.current.Some? && t.current.value + 1 >= |t.mirrors|)
  }

  // Exactly when a step loses the client behind the factories, and when one brings it back.
  lemma FactoriesStep(t: Tunnel, act: Action)
    requires TunnelOk(t) && Defined(t, act)
    ensures Backed(t) ==> (Backed(Step(t, act)) <==> !DeletesClient(t, act))
    ensures !Backed(t) ==> (Backed(Step(t, act)) <==> StartsClient(t, act))
  {
  }

  predicate AlwaysBacked(t: Tunnel, acts: seq<Action>)
    requires RunDefined(t, acts)
    decreases acts
  {
    Backed(t) && (acts == [] || AlwaysBacked(Step(t, acts[0]), acts[1..]))
  }

  predicate NeverDeletes(t: Tunnel, acts: seq<Action>)
    requires RunDefined(t, acts)
    decreases acts
  {
    acts == [] || (!DeletesClient(t, acts[0]) && NeverDeletes(Step(t, acts[0]), acts[1..]))
  }

  // Over whole runs: the factories always have their client exactly when no detection from the ready state succeeds.
  lemma {:induction false} FactoriesKeepClientExactly(t: Tunnel, acts: seq<Action>)
    requires TunnelOk(t) && Backed(t) && RunDefined(t, acts)
    ensures AlwaysBacked(t, acts) <==> NeverDeletes(t, acts)
    decreases acts
  {
    hide TunnelOk, Backed, DeletesClient;
    if acts != [] {
      FactoriesStep(t, acts[0]);
      StepKeepsTunnelOk(t, acts[0]);
      if !DeletesClient(t, acts[0]) {
        FactoriesKeepClientExactly(Step(t, acts[0]), acts[1..]);
      }
    }
  }

  // ---- what switching the mode does, and how a connection makes the tunnel ready

  // In which states each mode can be chosen, and where that leads; a refused change leaves everything as it was.
  lemma SetModeExactly(t: Tunnel, mode: Mode)
    requires TunnelOk(t)
    ensures var after := Step(t, SetMode(mode));
      && (after.mode == mode <==>
            || t.mode == mode || (mode == Enable && t.state == Disabled) || (mode == Disable && t.state == Ready)
            || (mode == Auto && (t.state == Disabled || t.state == Ready) && t.mirrors != []))
      && (t.mode == mode || after.mode != mode ==> after == t)
      && (t.mode != mode && after.mode == mode ==>
            && after.servers == t.servers && after.mirrors == t.mirrors && after.queue == t.queue
            && match mode
               case Enable => after.state == Connecting && after.client == Some(t.servers) && after.factories == t.factories
                              && Pending(after) == Pending(t)
               case Disable => after.state == Disabled && after.client == None && !after.factories && Pending(after) == Pending(t)
               case Auto => after.state == Autodetecting && after.client == t.client && after.factories == t.factories
                            && Pending(after) == Pending(t) + 1 && after.current == Some(0) && after.tried == UpTo(1))
  {
  }

  // The lists and the queue over every step: what is added goes to the end, and events are taken from the front.
  lemma ListsStep(t: Tunnel, act: Action)
    requires Defined(t, act)
    ensures var after := Step(t, act);
      && after.servers == (match act case AddServer(a) => t.servers + [a] case AddMirror(a, _) => t.servers + [a]
                                     case Clean => [] case _ => t.servers)
      && after.mirrors == (match act case AddMirror(_, m) => t.mirrors + [m] case Clean => [] case _ => t.mirrors)
      && after.queue == (match act
                         case ClientCallback(connected) => t.queue + [TunnelEvent(connected)]
                         case MirrorCallback(haveUdp) => t.queue + if t.outstanding == 0 then [] else [MirrorEvent(haveUdp)]
                         case Iterate => if t.queue == [] then [] else t.queue[1..]
                         case _ => t.queue)
  {
  }

  predicate TakesConnection(t: Tunnel, act: Action) { act == Iterate && t.queue != [] && t.queue[0] == TunnelEvent(true) }

  // A connecting tunnel becomes ready exactly when it takes a connection off the queue; nothing else changes its mode or state.
  lemma ConnectingStep(t: Tunnel, act: Action)
    requires TunnelOk(t) && t.state == Connecting && Defined(t, act)
    ensures var after := Step(t, act);
      && after.mode == t.mode && after.client == Some(after.servers)
      && after.state == (if TakesConnection(t, act) then Ready else Connecting)
      && after.factories == (t.factories || TakesConnection(t, act))
  {
  }

  // Elsewhere a tunnel event is dropped, and so is an answer when there is no detection.
  lemma LateEventIsDropped(t: Tunnel)
    requires t.queue != [] && (if t.queue[0].TunnelEvent? then t.queue[0].connected ==> t.state != Connecting else t.state != Autodetecting)
    ensures Defined(t, Iterate) && Step(t, Iterate) == t.(queue := t.queue[1..])
  {
  }

  /** The first connection in the queue is at position p. */
  predicate ConnectionAt(t: Tunnel, p: nat) {
    p < |t.queue| && t.queue[p] == TunnelEvent(true) && forall i :: 0 <= i < p ==> t.queue[i] != TunnelEvent(true)
  }

  lemma ConnectionMovesUp(t: Tunnel, act: Action, p: nat)
    requires TunnelOk(t) && t.state == Connecting && ConnectionAt(t, p) && Defined(t, act) && !(act == Iterate && p == 0)
    ensures ConnectionAt(Step(t, act), if act == Iterate then p - 1 else p)
  {
  }

  // Connecting does not hang: whatever is called in between, the tunnel keeps connecting for p turns of the event loop and
  // the next turn makes it ready, with the factories installed, in the mode it was in. That turn is step n of the run.
  lemma {:induction false} ConnectionIsTaken(t: Tunnel, acts: seq<Action>, p: nat) returns (n: nat)
    requires TunnelOk(t) && t.state == Connecting && ConnectionAt(t, p) && RunDefined(t, acts)
    ensures n <= |acts| && After(t, acts, n).mode == t.mode
    ensures Turns(acts) <= p ==> n == |acts| && After(t, acts, n).state == Connecting && After(t, acts, n).factories == t.factories
    ensures Turns(acts) > p ==> After(t, acts, n).state == Ready && After(t, acts, n).factories
    ensures Turns(acts) > p ==> n > 0 && Turns(acts[..n]) == p + 1 && acts[n - 1] == Iterate
    decreases acts
  {
    hide TunnelOk, Step, ConnectionAt;
    n := 0;
    if acts != [] {
      var next, rest := Step(t, acts[0]), acts[1..];
      ConnectingStep(t, acts[0]);
      StepKeepsTunnelOk(t, acts[0]);
      HeadConnection(t, p);
      if TakesConnection(t, acts[0]) {
        AfterCons(t, acts, 0);
        assert rest[..0] == [];
        n := 1;
      } else {
        ConnectionMovesUp(t, acts[0], p);
        n := ConnectionIsTaken(next, rest, if acts[0] == Iterate then p - 1 else p);
        AfterCons(t, acts, n);
        assert acts[..n + 1][1..] == rest[..n];
        n := n + 1;
      }
    }
  }

  lemma HeadConnection(t: Tunnel, p: nat)
    requires ConnectionAt(t, p)
    ensures t.queue != [] && (t.queue[0] == TunnelEvent(true) <==> p == 0)
  {
  }

  // Switched on from rest and connected, the tunnel is ready with a client that holds every server; switched off again,
  // it is as it was before.
  lemma SwitchOnAndOff(t: Tunnel)
    requires TunnelOk(t) && t.state == Disabled && t.mode != Enable && t.queue == []
    ensures var acts := [SetMode(Enable), ClientCallback(true), Iterate];
      && RunDefined(t, acts)
      && Run(t, acts) == t.(mode := Enable, state := Ready, client := Some(t.servers), factories := true)
      && RunDefined(t, acts + [SetMode(Disable)])
      && Run(t, acts + [SetMode(Disable)]) == t.(mode := Disable, factories := false)
  {
    hide TunnelOk, Step;
    SwitchSteps(t);
    var on := Step(t, SetMode(Enable));
    var posted := Step(on, ClientCallback(true));
    RunCons(posted, Iterate, []);
    RunCons(on, ClientCallback(true), [Iterate]);
    RunCons(t, SetMode(Enable), [ClientCallback(true), Iterate]);
    RunFour(t, SetMode(Enable), ClientCallback(true), Iterate, SetMode(Disable));
    assert [Iterate] + [] == [Iterate] && [ClientCallback(true)] + [Iterate] == [ClientCallback(true), Iterate];
    assert [SetMode(Enable)] + [ClientCallback(true), Iterate] == [SetMode(Enable), ClientCallback(true), Iterate];
    assert [SetMode(Enable), ClientCallback(true), Iterate] + [SetMode(Disable)]
        == [SetMode(Enable), ClientCallback(true), Iterate, SetMode(Disable)];
  }

  lemma SwitchSteps(t: Tunnel)
    requires TunnelOk(t) && t.state == Disabled && t.mode != Enable && t.queue == []
    ensures var on := Step(t, SetMode(Enable));
            var posted := Step(on, ClientCallback(true));
      && on == t.(mode := Enable, state := Connecting, client := Some(t.servers))
      && posted == on.(queue := [TunnelEvent(true)]) && Defined(posted, Iterate)
      && Step(posted, Iterate) == on.(state := Ready, factories := true)
      && Step(Step(posted, Iterate), SetMode(Disable)) == t.(mode := Disable, factories := false)
  {
  }

  // ---- concrete runs

  const ADDR := ServerAddr("t", 443)
  const MIRROR := Mirror(ServerAddr("t", 12345), 1000)

  lemma RunCons(t: Tunnel, act: Action, rest: seq<Action>)
    requires Defined(t, act) && RunDefined(Step(t, act), rest)
    ensures RunDefined(t, [act] + rest) && Run(t, [act] + rest) == Run(Step(t, act), rest)
  {
    assert ([act] + rest)[1..] == rest;
  }

  // The state after adding one mirror and starting a detection on it.
  function Detecting(): Tunnel { Step(Step(NEW_TUNNEL, AddMirror(ADDR, MIRROR)), SetMode(Auto)) }

  lemma RunDetecting(rest: seq<Action>)
    requires RunDefined(Detecting(), rest)
    ensures RunDefined(NEW_TUNNEL, [AddMirror(ADDR, MIRROR), SetMode(Auto)] + rest)
    ensures Run(NEW_TUNNEL, [AddMirror(ADDR, MIRROR), SetMode(Auto)] + rest) == Run(Detecting(), rest)
  {
    RunCons(Step(NEW_TUNNEL, AddMirror(ADDR, MIRROR)), SetMode(Auto), rest);
    RunCons(NEW_TUNNEL, AddMirror(ADDR, MIRROR), [SetMode(Auto)] + rest);
    assert [AddMirror(ADDR, MIRROR)] + ([SetMode(Auto)] + rest) == [AddMirror(ADDR, MIRROR), SetMode(Auto)] + rest;
  }

  lemma RunFour(t: Tunnel, a: Action, b: Action, c: Action, d: Action)
    requires Defined(t, a) && Defined(Step(t, a), b) && Defined(Step(Step(t, a), b), c)
    requires Defined(Step(Step(Step(t, a), b), c), d)
    ensures RunDefined(t, [a, b, c, d]) && Run(t, [a, b, c, d]) == Step(Step(Step(Step(t, a), b), c), d)
  {
    var t1 := Step(t, a);
    var t2 := Step(t1, b);
    RunCons(Step(t2, c), d, []);
    RunCons(t2, c, [d]);
    RunCons(t1, b, [c, d]);
    RunCons(t, a, [b, c, d]);
    assert [a] + [b, c, d] == [a, b, c, d] && [b] + [c, d] == [b, c, d] && [c] + [d] == [c, d] && [d] + [] == [d];
  }

  // A run that gets there: the servers are removed after a detection, and the network comes back.
  lemma StuckIsReachable()
    ensures var acts := [AddMirror(ADDR, MIRROR), SetMode(Auto)] + [MirrorCallback(true), Iterate, Clean, Reachable(true)];
            RunDefined(NEW_TUNNEL, acts) && Stuck(Run(NEW_TUNNEL, acts))
  {
    hide Run, RunDefined, Step, Detecting, Stuck;
    StuckSteps();
    RunFour(Detecting(), MirrorCallback(true), Iterate, Clean, Reachable(true));
    RunDetecting([MirrorCallback(true), Iterate, Clean, Reachable(true)]);
  }

  lemma StuckSteps()
    ensures var posted := Step(Detecting(), MirrorCallback(true));
      && posted.queue == [MirrorEvent(true)] && Defined(posted, Iterate)
      && Stuck(Step(Step(Step(posted, Iterate), Clean), Reachable(true)))
  {
    hide Run, RunDefined;
  }

  // A new manager is given a server, switched on, and connected: it tunnels through that server.
  lemma NewTunnelConnects()
    ensures var acts := [AddServer(ADDR), SetMode(Enable), ClientCallback(true), Iterate];
            && RunDefined(NEW_TUNNEL, acts)
            && var end := Run(NEW_TUNNEL, acts);
               end.mode == Enable && end.state == Ready && end.factories && end.client == Some([ADDR])
  {
    hide Run, RunDefined;
    var on := Step(Step(NEW_TUNNEL, AddServer(ADDR)), SetMode(Enable));
    assert on.servers == [ADDR] && Step(on, ClientCallback(true)).queue == [TunnelEvent(true)];
    RunFour(NEW_TUNNEL, AddServer(ADDR), SetMode(Enable), ClientCallback(true), Iterate);
  }

  // Removing the servers during a detection leaves a queued failure undefined.
  lemma CleanDuringDetection()
    ensures var acts := [AddMirror(ADDR, MIRROR), SetMode(Auto)] + [MirrorCallback(false), Clean];
            RunDefined(NEW_TUNNEL, acts) && !Defined(Run(NEW_TUNNEL, acts), Iterate)
  {
    var posted := Step(Detecting(), MirrorCallback(false));
    RunCons(posted, Clean, []);
    RunCons(Detecting(), MirrorCallback(false), [Clean]);
    assert [MirrorCallback(false)] + [Clean] == [MirrorCallback(false), Clean] && [Clean] + [] == [Clean];
    RunDetecting([MirrorCallback(false), Clean]);
  }

  // The RTP factories can outlive the client they create sockets with: a detection that starts from the ready state and
  // succeeds deletes the client and leaves them installed.
  lemma FactoriesOutliveClient(t: Tunnel)
    requires TunnelOk(t) && DetectionOk(t) && t.queue == [] && t.state == Ready && t.mode != Auto && t.mirrors != []
    ensures RunDefined(t, [SetMode(Auto), MirrorCallback(true), Iterate, Reachable(false)])
    ensures var end := Run(t, [SetMode(Auto), MirrorCallback(true), Iterate, Reachable(false)]);
            end.factories && end.client == None
  {
    hide Run, RunDefined, Step, TunnelOk, DetectionOk;
    DetectionSucceeds(t);
    RunFour(t, SetMode(Auto), MirrorCallback(true), Iterate, Reachable(false));
  }

  lemma DetectionSucceeds(t: Tunnel)
    requires TunnelOk(t) && DetectionOk(t) && t.queue == [] && t.state == Ready && t.mode != Auto && t.mirrors != []
    ensures var posted := Step(Step(t, SetMode(Auto)), MirrorCallback(true));
      && posted.queue == [MirrorEvent(true)] && posted.state == Autodetecting && Defined(posted, Iterate)
      && var end := Step(Step(posted, Iterate), Reachable(false));
         end.factories && end.client == None
  {
    hide Run, RunDefined;
  }
}
