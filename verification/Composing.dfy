/** coreapi/chat.c: the composing indication of a chat room, and its agreement between two parties (RFC 3994). */
module Composing {
  import opened Wrappers

  /** A chat room: its own state with the idle and refresh timers, and the peer's state with its expiry timer. */
  datatype Room = Room(composing: bool, idleTimer: bool, refreshTimer: bool, remoteComposing: bool, remoteTimer: bool)

  /** What travels to the peer. */
  datatype Item = Notification(active: bool) | Text

  /** One isComposing node: its state and refresh elements. */
  datatype Node = Node(state: Option<string>, refresh: Option<string>)

  // ---- what each operation does: the room afterwards, and what is sent

  function ComposeIn(r: Room): (Room, seq<Item>) {
    if r.composing then (r, []) else (r.(composing := true, refreshTimer := true, idleTimer := true), [Notification(true)])
  }

  function IdleExpiredIn(r: Room): (Room, seq<Item>) {
    (r.(composing := false, refreshTimer := false, idleTimer := false), [Notification(false)])
  }

  // A message that must first upload its file is not sent yet, and leaves the indication alone.
  function SendIn(r: Room, upload: bool): (Room, seq<Item>) {
    if upload then (r, []) else (r.(composing := false, idleTimer := false, refreshTimer := false), [Text])
  }

  // The last node decides; without a state in it the notification is ignored.
  function NotifiedIn(r: Room, nodes: seq<Node>): Room {
    if nodes == [] || nodes[|nodes| - 1].state.None? then r
    else
      var active := nodes[|nodes| - 1].state.value == "active";
      r.(remoteComposing := active, remoteTimer := active)
  }

  class ChatRoom {
    var isComposing: bool
    var composingIdleTimer: bool
    var composingRefreshTimer: bool
    var remoteIsComposing: bool
    var remoteComposingRefreshTimer: bool
    var sent: seq<Item>

    function Value(): Room
      reads this
    {
      Room(isComposing, composingIdleTimer, composingRefreshTimer, remoteIsComposing, remoteComposingRefreshTimer)
    }

    constructor ()
      ensures Value() == NEW_ROOM && sent == []
    {
      isComposing, composingIdleTimer, composingRefreshTimer := false, false, false;
      remoteIsComposing, remoteComposingRefreshTimer, sent := false, false, [];
    }

    method SendIsComposingNotification()
      modifies `sent
      ensures sent == old(sent) + [Notification(isComposing)]
    {
      sent := sent + [Notification(isComposing)];
    }

    // Re-arming needs a timer.
    method RearmIdleTimer()
      requires composingIdleTimer
    {
    }

    method Compose()
      requires LocalOk(Value())
      modifies `isComposing, `composingIdleTimer, `composingRefreshTimer, `sent
      ensures Value() == ComposeIn(old(Value())).0 && sent == old(sent) + ComposeIn(old(Value())).1
      ensures isComposing && composingIdleTimer && composingRefreshTimer
      ensures sent == old(sent) + if old(isComposing) then [] else [Notification(true)]
    {
      if !isComposing {
        isComposing := true;
        SendIsComposingNotification();
        composingRefreshTimer := true;
        if !composingIdleTimer { composingIdleTimer := true; }
      }
      RearmIdleTimer();
    }

    method StopComposing()
      requires composingIdleTimer
      modifies `isComposing, `composingIdleTimer, `composingRefreshTimer, `sent
      ensures Value() == IdleExpiredIn(old(Value())).0 && sent == old(sent) + IdleExpiredIn(old(Value())).1
      ensures !isComposing && !composingIdleTimer && !composingRefreshTimer && sent == old(sent) + [Notification(false)]
    {
      isComposing := false;
      SendIsComposingNotification();
      composingRefreshTimer := false;
      composingIdleTimer := false;
    }

    method RefreshComposing()
      requires composingRefreshTimer
      modifies `sent
      ensures sent == old(sent) + [Notification(isComposing)]
    {
      SendIsComposingNotification();
    }

    method SendMessage(upload: bool)
      modifies `isComposing, `composingIdleTimer, `composingRefreshTimer, `sent
      ensures Value() == SendIn(old(Value()), upload).0 && sent == old(sent) + SendIn(old(Value()), upload).1
      ensures upload ==> Value() == old(Value()) && sent == old(sent)
      ensures !upload ==> !isComposing && !composingIdleTimer && !composingRefreshTimer && sent == old(sent) + [Text]
    {
      if upload { return; }
      sent := sent + [Text];
      if isComposing { isComposing := false; }
      composingIdleTimer := false;
      composingRefreshTimer := false;
    }

    // The expiry timer is left running.
    method MessageReceived()
      modifies `remoteIsComposing
      ensures Value() == old(Value()).(remoteComposing := false)
    {
      remoteIsComposing := false;
    }

    method RemoteRefreshExpired()
      requires remoteComposingRefreshTimer
      modifies `remoteIsComposing, `remoteComposingRefreshTimer
      ensures Value() == old(Value()).(remoteComposing := false, remoteTimer := false)
    {
      remoteComposingRefreshTimer := false;
      remoteIsComposing := false;
    }

    method ProcessNotification(nodes: seq<Node>)
      modifies `remoteIsComposing, `remoteComposingRefreshTimer
      ensures Value() == NotifiedIn(old(Value()), nodes)
      ensures if nodes == [] || nodes[|nodes| - 1].state == None then Value() == old(Value())
              else remoteIsComposing == remoteComposingRefreshTimer == (nodes[|nodes| - 1].state == Some("active"))
    {
      var state: Option<string>, refresh: Option<string> := None, None;
      var i := 0;
      while i < |nodes|
        invariant 0 <= i <= |nodes|
        invariant state == if i == 0 then None else nodes[i - 1].state
      {
        state := nodes[i].state;
        if state.Some? { refresh := nodes[i].refresh; }
        i := i + 1;
      }
      if state.Some? {
        if state.value == "active" {
          if !remoteComposingRefreshTimer { remoteComposingRefreshTimer := true; }
        } else {
          remoteComposingRefreshTimer := false;
        }
        remoteIsComposing := state.value == "active";
      }
    }
  }

  const NEW_ROOM := Room(false, false, false, false, false)

  predicate LocalOk(r: Room) { r.composing == r.idleTimer == r.refreshTimer }

  predicate RemoteOk(r: Room) { r.remoteComposing ==> r.remoteTimer }

  // ---- two parties and a FIFO channel in each direction

  datatype Party = A | B

  datatype Duo = Duo(a: Room, b: Room, toA: seq<Item>, toB: seq<Item>) {
    function Of(p: Party): Room { if p.A? then a else b }

    // What is on its way from p to the other party.
    function From(p: Party): seq<Item> { if p.A? then toB else toA }

    function With(p: Party, r: Room, items: seq<Item>): Duo {
      if p.A? then this.(a := r, toB := toB + items) else this.(b := r, toA := toA + items)
    }

    // The next item on its way to p is gone, and p is left as r.
    function Arrived(p: Party, r: Room): Duo
      requires From(if p.A? then B else A) != []
    {
      if p.A? then this.(a := r, toA := toA[1..]) else this.(b := r, toB := toB[1..])
    }
  }

  /** DropText: the next text arrives while chat is denied, or repeats an identifier, and is not processed. */
  datatype Action = Compose | IdleExpires | RefreshExpires | Send(upload: bool) | ReceiveNext | DropText | RemoteExpires

  function Other(p: Party): Party { if p.A? then B else A }

  // The XML of a notification has one node.
  function ItemIn(r: Room, item: Item): Room {
    match item
    case Notification(active) => NotifiedIn(r, [Node(Some(if active then "active" else "idle"), None)])
    case Text => r.(remoteComposing := false)
  }

  // Timers fire only when set.
  function Step(d: Duo, p: Party, act: Action): Duo {
    var r := d.Of(p);
    match act
    case Compose => d.With(p, ComposeIn(r).0, ComposeIn(r).1)
    case IdleExpires => if r.idleTimer then d.With(p, IdleExpiredIn(r).0, IdleExpiredIn(r).1) else d
    case RefreshExpires => if r.refreshTimer then d.With(p, r, [Notification(r.composing)]) else d
    case Send(upload) => d.With(p, SendIn(r, upload).0, SendIn(r, upload).1)
    case RemoteExpires => if r.remoteTimer then d.With(p, r.(remoteComposing := false, remoteTimer := false), []) else d
    case ReceiveNext =>
      var channel := d.From(Other(p));
      if channel == [] then d else d.Arrived(p, ItemIn(r, channel[0]))
    case DropText =>
      var channel := d.From(Other(p));
      if channel == [] || !channel[0].Text? then d else d.Arrived(p, r)
  }

  function Run(d: Duo, acts: seq<(Party, Action)>): Duo {
    if acts == [] then d
    else var before := Run(d, acts[..|acts| - 1]); Step(before, acts[|acts| - 1].0, acts[|acts| - 1].1)
  }

  // What the receiver would show once everything on its way had arrived: the last item decides.
  predicate Eventually(shown: bool, channel: seq<Item>) {
    if channel == [] then shown else channel[|channel| - 1] == Notification(true)
  }

  /** p composes, or the other party will not believe so once the channel is drained. */
  predicate Agrees(d: Duo, p: Party) { Eventually(d.Of(Other(p)).remoteComposing, d.From(p)) ==> d.Of(p).composing }

  /** What holds of the timers in every run: they follow the local state, and a shown indication will expire. */
  predicate TimersOk(d: Duo) { LocalOk(d.a) && LocalOk(d.b) && RemoteOk(d.a) && RemoteOk(d.b) }

  lemma ItemOk(r: Room, item: Item)
    requires LocalOk(r) && RemoteOk(r)
    ensures LocalOk(ItemIn(r, item)) && RemoteOk(ItemIn(r, item))
    ensures ItemIn(r, item).remoteComposing == (item == Notification(true))
    ensures ItemIn(r, item).composing == r.composing
  {
  }

  lemma StepKeepsTimersOk(d: Duo, p: Party, act: Action)
    requires TimersOk(d)
    ensures TimersOk(Step(d, p, act))
  {
    hide ItemIn;
    var incoming := d.From(Other(p));
    if act.ReceiveNext? && incoming != [] { ItemOk(d.Of(p), incoming[0]); }
  }

  // Receiving an item leaves what is eventually shown as it was.
  lemma ReceivingKeepsEventually(shown: bool, channel: seq<Item>)
    requires channel != []
    ensures Eventually(channel[0] == Notification(true), channel[1..]) == Eventually(shown, channel)
  {
  }

  // So does not processing a text, unless it was the last item and the indication is shown.
  lemma DroppingKeepsEventually(shown: bool, channel: seq<Item>)
    requires channel != [] && channel[0] == Text
    ensures Eventually(shown, channel[1..]) == if channel == [Text] then shown else Eventually(shown, channel)
    ensures channel == [Text] ==> !Eventually(shown, channel)
  {
  }

  lemma SendingDecides(shown: bool, channel: seq<Item>, item: Item)
    ensures Eventually(shown, channel + [item]) <==> item == Notification(true)
    ensures channel + [] == channel
  {
  }

  lemma ExpiryKeepsEventually(channel: seq<Item>)
    ensures Eventually(false, channel) ==> Eventually(true, channel)
    ensures Eventually(true, channel) ==> channel == [] || Eventually(false, channel)
  {
  }

  /** q receives everything on its way. */
  function ReceiveAll(d: Duo, q: Party): Duo
    decreases |d.From(Other(q))|
  {
    if d.From(Other(q)) == [] then d else ReceiveAll(Step(d, q, ReceiveNext), q)
  }

  // Receiving it all shows exactly what was eventually to be shown, and changes nothing else of the sender's.
  lemma {:induction false} DrainedShows(d: Duo, p: Party)
    requires TimersOk(d)
    ensures var q := Other(p);
            var drained := ReceiveAll(d, q);
      && drained.From(p) == [] && drained.Of(p) == d.Of(p) && drained.From(q) == d.From(q)
      && drained.Of(q).remoteComposing == Eventually(d.Of(q).remoteComposing, d.From(p))
      && drained.Of(q).composing == d.Of(q).composing
    decreases |d.From(p)|
  {
    hide ItemIn, TimersOk, Eventually;
    var q, channel := Other(p), d.From(p);
    if channel == [] {
      NothingOnItsWay(d.Of(q).remoteComposing);
    } else {
      TimersOkEach(d, q);
      ItemOk(d.Of(q), channel[0]);
      ReceivingKeepsEventually(d.Of(q).remoteComposing, channel);
      StepKeepsTimersOk(d, q, ReceiveNext);
      DrainedShows(Step(d, q, ReceiveNext), p);
    }
  }

  lemma NothingOnItsWay(shown: bool)
    ensures Eventually(shown, []) == shown
  {
  }

  lemma TimersOkEach(d: Duo, p: Party)
    requires TimersOk(d)
    ensures LocalOk(d.Of(p)) && RemoteOk(d.Of(p))
  {
  }

  /** The receiver q does not process the only text on its way from p, who no longer composes, while q shows that p does. */
  predicate LosesEnd(d: Duo, p: Party, q: Party, act: Action) {
    q == Other(p) && act == DropText && d.From(p) == [Text] && d.Of(q).remoteComposing && !d.Of(p).composing
  }

  /** p composes again or sends another message, or q's expiry timer fires. */
  predicate MakesUp(p: Party, q: Party, act: Action) {
    if q == p then act == Compose || act == Send(false) else act == RemoteExpires
  }

  lemma SenderKeepsAgreement(d: Duo, p: Party, act: Action)
    requires TimersOk(d) && Agrees(d, p)
    ensures Agrees(Step(d, p, act), p)
  {
    hide Eventually, ItemIn;
    var shown, channel := d.Of(Other(p)).remoteComposing, d.From(p);
    SendingDecides(shown, channel, Text);
    SendingDecides(shown, channel, Notification(true));
    SendingDecides(shown, channel, Notification(false));
    var incoming := d.From(Other(p));
    if incoming != [] { ItemOk(d.Of(p), incoming[0]); }
  }

  lemma ReceiverKeepsAgreement(d: Duo, p: Party, act: Action)
    requires TimersOk(d) && Agrees(d, p)
    ensures Agrees(Step(d, Other(p), act), p) <==> !LosesEnd(d, p, Other(p), act)
  {
    hide Eventually, ItemIn;
    var shown, channel := d.Of(Other(p)).remoteComposing, d.From(p);
    match act
    case ReceiveNext =>
      if channel != [] {
        ItemOk(d.Of(Other(p)), channel[0]);
        ReceivingKeepsEventually(shown, channel);
      }
    case DropText =>
      if channel != [] && channel[0].Text? { DroppingKeepsEventually(shown, channel); }
    case RemoteExpires => ExpiryKeepsEventually(channel);
    case _ =>
  }

  // Agreement is kept by exactly the steps that do not lose the end of composing.
  lemma StepKeepsAgreement(d: Duo, p: Party, q: Party, act: Action)
    requires TimersOk(d) && Agrees(d, p)
    ensures Agrees(Step(d, q, act), p) <==> !LosesEnd(d, p, q, act)
  {
    hide Agrees, Step, TimersOk;
    if q == p { SenderKeepsAgreement(d, p, act); } else { ReceiverKeepsAgreement(d, p, act); }
  }

  // Once lost, with the channel empty, agreement comes back with exactly the steps that make up for it.
  lemma StepRestoresAgreement(d: Duo, p: Party, q: Party, act: Action)
    requires TimersOk(d) && !Agrees(d, p) && d.From(p) == []
    ensures var after := Step(d, q, act);
            if MakesUp(p, q, act) then Agrees(after, p) else !Agrees(after, p) && after.From(p) == []
  {
    hide ItemIn;
    SendingDecides(true, [], Text);
    SendingDecides(true, [], Notification(true));
    var incoming := d.From(Other(q));
    if incoming != [] { ItemOk(d.Of(q), incoming[0]); }
  }

  const START := Duo(NEW_ROOM, NEW_ROOM, [], [])

  /** The end of p's composing was lost on the way, and nothing has made up for it since. */
  predicate EndLost(acts: seq<(Party, Action)>, p: Party) {
    if acts == [] then false
    else
      var before := acts[..|acts| - 1];
      var (q, act) := acts[|acts| - 1];
      if EndLost(before, p) then !MakesUp(p, q, act) else LosesEnd(Run(START, before), p, q, act)
  }

  // Along every run, texts that are not processed included: the timers are as they should be, and the parties agree exactly
  // when the end of composing is not lost. So once the channel is drained the receiver shows composing only if the sender is.
  lemma {:induction false} ComposingAgreement(acts: seq<(Party, Action)>, p: Party)
    ensures var d := Run(START, acts);
      && TimersOk(d)
      && (Agrees(d, p) <==> !EndLost(acts, p))
      && (EndLost(acts, p) ==> d.From(p) == [])
      && (d.From(p) == [] ==> (EndLost(acts, p) <==> d.Of(Other(p)).remoteComposing && !d.Of(p).composing))
  {
    hide Step, TimersOk, MakesUp, LosesEnd;
    if acts == [] {
      AtTheStart();
    } else {
      var before := acts[..|acts| - 1];
      var (q, act) := acts[|acts| - 1];
      var d := Run(START, before);
      ComposingAgreement(before, p);
      StepKeepsTimersOk(d, q, act);
      if EndLost(before, p) { StepRestoresAgreement(d, p, q, act); } else { StepKeepsAgreement(d, p, q, act); }
      if LosesEnd(d, p, q, act) { LostIsEmpty(d, p, q, act); }
    }
  }

  lemma AtTheStart()
    ensures TimersOk(START)
  {
  }

  lemma LostIsEmpty(d: Duo, p: Party, q: Party, act: Action)
    requires LosesEnd(d, p, q, act)
    ensures Step(d, q, act).From(p) == []
  {
  }

  // When every text is processed, the end of composing is never lost.
  lemma {:induction false} ProcessedTextsAgree(acts: seq<(Party, Action)>, p: Party)
    requires forall step <- acts :: step.1 != DropText
    ensures !EndLost(acts, p)
  {
    if acts != [] {
      assert acts[|acts| - 1] in acts;
      ProcessedTextsAgree(acts[..|acts| - 1], p);
    }
  }

  /** What the receiver would show is what the sender does. */
  predicate Exact(d: Duo, p: Party) { Eventually(d.Of(Other(p)).remoteComposing, d.From(p)) == d.Of(p).composing }

  lemma StepKeepsExact(d: Duo, p: Party, q: Party, act: Action)
    requires TimersOk(d) && Exact(d, p) && !(q == Other(p) && (act == DropText || act == RemoteExpires))
    ensures Exact(Step(d, q, act), p)
  {
    hide Eventually, ItemIn;
    var shown, channel := d.Of(Other(p)).remoteComposing, d.From(p);
    SendingDecides(shown, channel, Text);
    SendingDecides(shown, channel, Notification(true));
    SendingDecides(shown, channel, Notification(false));
    var incoming := d.From(Other(q));
    if act == ReceiveNext && incoming != [] {
      ItemOk(d.Of(q), incoming[0]);
      if q == Other(p) { ReceivingKeepsEventually(shown, channel); }
    }
  }

  // While the receiver processes every text and its expiry timer does not fire, both directions hold: when it has received
  // everything, it shows that the sender composes exactly when the sender does.
  lemma {:induction false} DrainedIsExact(acts: seq<(Party, Action)>, p: Party)
    requires (Other(p), DropText) !in acts && (Other(p), RemoteExpires) !in acts
    ensures Exact(Run(START, acts), p)
    ensures ReceiveAll(Run(START, acts), Other(p)).Of(Other(p)).remoteComposing <==> Run(START, acts).Of(p).composing
  {
    hide Step, TimersOk, Eventually, EndLost;
    if acts == [] {
      NothingOnItsWay(false);
    } else {
      var before, last := acts[..|acts| - 1], acts[|acts| - 1];
      assert last in acts;
      DrainedIsExact(before, p);
      ComposingAgreement(before, p);
      StepKeepsExact(Run(START, before), p, last.0, last.1);
    }
    ComposingAgreement(acts, p);
    DrainedShows(Run(START, acts), p);
  }

  lemma RunNext(acts: seq<(Party, Action)>, p: Party, q: Party, act: Action)
    ensures Run(START, acts + [(q, act)]) == Step(Run(START, acts), q, act)
    ensures EndLost(acts + [(q, act)], p)
         == if EndLost(acts, p) then !MakesUp(p, q, act) else LosesEnd(Run(START, acts), p, q, act)
  {
    hide Step, MakesUp, LosesEnd;
    assert (acts + [(q, act)])[..|acts|] == acts;
  }

  lemma NothingRun()
    ensures Run(START, []) == START
  {
  }

  /** p composes, the other party hears of it, and p's message is not processed. */
  function LosingRun(p: Party): seq<(Party, Action)> {
    [(p, Compose)] + [(Other(p), ReceiveNext)] + [(p, Send(false))] + [(Other(p), DropText)]
  }

  // A run that loses it. The indication stays until its timer expires.
  lemma UnprocessedTextDisagrees(p: Party)
    ensures EndLost(LosingRun(p), p) && !EndLost(LosingRun(p) + [(Other(p), RemoteExpires)], p)
    ensures Run(START, LosingRun(p)).Of(Other(p)).remoteComposing && !Run(START, LosingRun(p)).Of(p).composing
  {
    hide Step, Run, EndLost;
    var q := Other(p);
    var a1 := [(p, Compose)];
    var a2 := a1 + [(q, ReceiveNext)];
    var a3 := a2 + [(p, Send(false))];
    assert [] + [(p, Compose)] == a1;
    NothingRun();
    RunNext([], p, p, Compose);
    RunNext(a1, p, q, ReceiveNext);
    RunNext(a2, p, p, Send(false));
    RunNext(a3, p, q, DropText);
    RunNext(LosingRun(p), p, q, RemoteExpires);
    ProcessedTextsAgree(a3, p);
    TextOnItsWay(p);
  }

  lemma TextOnItsWay(p: Party)
    ensures var q := Other(p);
      var sent := Step(Step(Step(START, p, Compose), q, ReceiveNext), p, Send(false));
      && sent.From(p) == [Text] && sent.Of(q).remoteComposing && !sent.Of(p).composing
      && var dropped := Step(sent, q, DropText);
         dropped.Of(q).remoteComposing && !dropped.Of(p).composing
  {
  }
}
