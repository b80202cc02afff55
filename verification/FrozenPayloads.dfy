/** coreapi/callbacks.c: payload type numbers stay bound to their codec for the whole session (RFC 3264, section 8.3.2). */
module FrozenPayloads {
  import opened Wrappers

  const MAX_STREAMS := 8

  datatype Payload = Payload(number: int, codec: string)

  type List = seq<Payload>

  predicate Available(list: List, number: int) { forall p <- list :: p.number != number }

  /** One negotiated payload: a new number is appended, a known one is left as it is. */
  function Add(list: List, p: Payload): List { if Available(list, p.number) then list + [p] else list }

  function Freeze(list: List, negotiated: List): List {
    if negotiated == [] then list else Add(Freeze(list, negotiated[..|negotiated| - 1]), negotiated[|negotiated| - 1])
  }

  /** A local description: how many streams it has, and the assigned payloads of each possible stream. */
  datatype Local = Local(nb: nat, lists: seq<List>) {
    predicate Valid() { nb <= MAX_STREAMS && |lists| == MAX_STREAMS }
  }

  function Negotiate(l: Local, result: seq<List>): (r: Local)
    requires l.Valid() && |result| <= MAX_STREAMS
    ensures r.Valid() && r.nb == l.nb
  {
    Local(l.nb, seq(MAX_STREAMS, i requires 0 <= i < MAX_STREAMS => if i < |result| then Freeze(l.lists[i], result[i]) else l.lists[i]))
  }

  // A new local description takes over the lists of the streams that the old one has.
  function Renew(l: Local, nb: nat): (r: Local)
    requires l.Valid() && nb <= MAX_STREAMS
    ensures r.Valid()
  {
    Local(nb, seq(MAX_STREAMS, i requires 0 <= i < MAX_STREAMS => if i < l.nb then l.lists[i] else []))
  }

  class Call {
    var frozen: array<List>
    var nbStreams: nat

    predicate Valid()
      reads this
    {
      frozen.Length == MAX_STREAMS && nbStreams <= MAX_STREAMS
    }

    function Value(): (l: Local)
      requires Valid()
      reads this, frozen
      ensures l.Valid()
    {
      Local(nbStreams, frozen[..])
    }

    constructor (nb: nat)
      requires nb <= MAX_STREAMS
      ensures Valid() && fresh(frozen) && Value() == NEW_CALL.(nb := nb)
    {
      frozen := new List[MAX_STREAMS](i => []);
      nbStreams := nb;
    }

    method IsPayloadTypeNumberAvailable(list: List, number: int) returns (available: bool)
      ensures available <==> Available(list, number)
    {
      var i := 0;
      while i < |list|
        invariant 0 <= i <= |list|
        invariant forall j :: 0 <= j < i ==> list[j].number != number
      {
        if list[i].number == number { return false; }
        i := i + 1;
      }
      available := true;
    }

    method FreezeStream(i: nat, negotiated: List)
      requires Valid() && i < MAX_STREAMS
      modifies frozen
      ensures frozen[..] == old(frozen[..])[i := Freeze(old(frozen[i]), negotiated)]
    {
      var n := 0;
      while n < |negotiated|
        invariant 0 <= n <= |negotiated|
        invariant frozen[..] == old(frozen[..])[i := Freeze(old(frozen[i]), negotiated[..n])]
      {
        assert negotiated[..n + 1][..n] == negotiated[..n];
        var pt := negotiated[n];
        var available := IsPayloadTypeNumberAvailable(frozen[i], pt.number);
        if available { frozen[i] := frozen[i] + [pt]; }
        n := n + 1;
      }
      assert negotiated[..n] == negotiated;
    }

    method UpdateFrozenPayloads(result: seq<List>)
      requires Valid() && |result| <= MAX_STREAMS
      modifies frozen
      ensures Value() == Negotiate(old(Value()), result)
    {
      var i := 0;
      while i < |result|
        invariant 0 <= i <= |result|
        invariant forall j :: 0 <= j < MAX_STREAMS ==>
                    frozen[j] == if j < i then Freeze(old(frozen[j]), result[j]) else old(frozen[j])
      {
        FreezeStream(i, result[i]);
        i := i + 1;
      }
    }

    method MakeLocalDescription(nb: nat)
      requires Valid() && nb <= MAX_STREAMS
      modifies this
      ensures Valid() && fresh(frozen) && Value() == Renew(old(Value()), nb)
      ensures nbStreams == nb
      ensures forall i :: 0 <= i < MAX_STREAMS ==> frozen[i] == if i < old(nbStreams) then old(frozen[i]) else []
    {
      var next := new List[MAX_STREAMS](i => []);
      var i := 0;
      while i < nbStreams
        invariant 0 <= i <= nbStreams && Valid() && unchanged(this) && unchanged(frozen)
        invariant forall j :: 0 <= j < MAX_STREAMS ==> next[j] == if j < i then frozen[j] else []
      {
        next[i] := frozen[i];
        i := i + 1;
      }
      assert next[..] == Renew(Value(), nb).lists;
      frozen, nbStreams := next, nb;
    }
  }

  // ---- what a frozen list means

  lemma {:induction false} FreezeTwice(list: List, a: List, b: List)
    ensures Freeze(Freeze(list, a), b) == Freeze(list, a + b)
  {
    if b == [] {
      assert a + b == a;
    } else {
      FreezeTwice(list, a, b[..|b| - 1]);
      assert (a + b)[..|a + b| - 1] == a + b[..|b| - 1];
    }
  }

  /** One entry for each number seen, holding the first payload seen under that number, in order of appearance. */
  ghost predicate FirstBindings(list: List, seen: List) {
    && (forall i, j :: 0 <= i < j < |list| ==> list[i].number != list[j].number)
    && (forall p <- seen :: exists q <- list :: q.number == p.number)
    && (forall q <- list :: FirstOf(seen, q))
  }

  ghost predicate FirstOf(seen: List, q: Payload) {
    exists k :: 0 <= k < |seen| && seen[k] == q && Available(seen[..k], q.number)
  }

  lemma FirstOfLonger(seen: List, p: Payload, q: Payload)
    requires FirstOf(seen, q)
    ensures FirstOf(seen + [p], q)
  {
    var k :| 0 <= k < |seen| && seen[k] == q && Available(seen[..k], q.number);
    assert (seen + [p])[k] == q && (seen + [p])[..k] == seen[..k];
  }

  lemma FirstOfNew(seen: List, p: Payload)
    requires Available(seen, p.number)
    ensures FirstOf(seen + [p], p)
  {
    assert (seen + [p])[|seen|] == p && (seen + [p])[..|seen|] == seen;
  }

  // Nothing seen has a number that the list lacks.
  lemma NewNumber(list: List, seen: List, p: Payload)
    requires FirstBindings(list, seen) && Available(list, p.number)
    ensures Available(seen, p.number)
  {
    forall q | q in seen ensures q.number != p.number {
      var r :| r in list && r.number == q.number;
    }
  }

  lemma AddKeepsBindings(list: List, seen: List, p: Payload)
    requires FirstBindings(list, seen)
    ensures FirstBindings(Add(list, p), seen + [p])
  {
    hide FirstOf;
    if Available(list, p.number) {
      NewNumber(list, seen, p);
      FirstOfNew(seen, p);
    }
    forall q | q in list ensures FirstOf(seen + [p], q) { FirstOfLonger(seen, p, q); }
    forall q | q in seen + [p] ensures exists r <- Add(list, p) :: r.number == q.number {
      if q in seen {
        var r :| r in list && r.number == q.number;
        assert r in Add(list, p);
      } else if Available(list, p.number) {
        assert p in Add(list, p);
      } else {
        var r :| r in list && r.number == p.number;
        assert r in Add(list, p);
      }
    }
  }

  lemma NothingBound()
    ensures FirstBindings([], [])
  {
  }

  lemma {:induction false} FreezeIsFirstBindings(seen: List)
    ensures FirstBindings(Freeze([], seen), seen)
  {
    hide Add, FirstBindings;
    if seen == [] {
      NothingBound();
    } else {
      FreezeIsFirstBindings(seen[..|seen| - 1]);
      AddKeepsBindings(Freeze([], seen[..|seen| - 1]), seen[..|seen| - 1], seen[|seen| - 1]);
      assert seen[..|seen| - 1] + [seen[|seen| - 1]] == seen;
    }
  }

  lemma {:induction false} FreezeAppends(list: List, negotiated: List)
    ensures list <= Freeze(list, negotiated)
  {
    if negotiated != [] { FreezeAppends(list, negotiated[..|negotiated| - 1]); }
  }

  // ---- a whole session

  datatype Step = Negotiated(result: seq<List>) | NewDescription(nb: nat)

  const NEW_CALL := Local(0, [[], [], [], [], [], [], [], []])

  function Apply(l: Local, step: Step): (r: Local)
    requires l.Valid()
    ensures r.Valid()
  {
    match step
    case Negotiated(result) => if |result| <= MAX_STREAMS then Negotiate(l, result) else l
    case NewDescription(nb) => if nb <= MAX_STREAMS then Renew(l, nb) else l
  }

  function ApplyAll(steps: seq<Step>): (l: Local)
    ensures l.Valid()
  {
    if steps == [] then NEW_CALL else Apply(ApplyAll(steps[..|steps| - 1]), steps[|steps| - 1])
  }

  // Everything negotiated so far on one stream.
  function Seen(steps: seq<Step>, stream: nat): List {
    if steps == [] then []
    else
      Seen(steps[..|steps| - 1], stream)
      + match steps[|steps| - 1]
        case Negotiated(result) => if stream < |result| <= MAX_STREAMS then result[stream] else []
        case NewDescription(_) => []
  }

  /** At each new description, the streams beyond the old one's count have no bindings yet. */
  predicate Lossless(steps: seq<Step>) {
    steps != [] ==>
      Lossless(steps[..|steps| - 1]) && LosslessStep(ApplyAll(steps[..|steps| - 1]), steps[|steps| - 1])
  }

  predicate LosslessStep(l: Local, step: Step)
    requires l.Valid()
  {
    match step
    case Negotiated(_) => true
    case NewDescription(nb) => nb > MAX_STREAMS || forall i :: l.nb <= i < MAX_STREAMS ==> l.lists[i] == []
  }

  lemma LosslessStepKeeps(l: Local, step: Step, stream: nat)
    requires l.Valid() && LosslessStep(l, step) && stream < MAX_STREAMS
    ensures Apply(l, step).lists[stream]
         == if step.Negotiated? && stream < |step.result| <= MAX_STREAMS then Freeze(l.lists[stream], step.result[stream])
            else l.lists[stream]
  {
  }

  lemma {:induction false} SessionAccumulates(steps: seq<Step>, stream: nat)
    requires Lossless(steps) && stream < MAX_STREAMS
    ensures ApplyAll(steps).lists[stream] == Freeze([], Seen(steps, stream))
  {
    hide Freeze;
    if steps == [] {
      NothingFrozen();
    } else {
      var before, step := steps[..|steps| - 1], steps[|steps| - 1];
      SessionAccumulates(before, stream);
      LosslessStepKeeps(ApplyAll(before), step, stream);
      assert Seen(before, stream) + [] == Seen(before, stream);
      if step.Negotiated? && stream < |step.result| <= MAX_STREAMS { FreezeTwice([], Seen(before, stream), step.result[stream]); }
    }
  }

  lemma NothingFrozen()
    ensures Freeze([], []) == []
  {
  }

  // Over every such session, each list holds exactly the first bindings of everything negotiated on its stream.
  lemma SessionFreezes(steps: seq<Step>, stream: nat)
    requires Lossless(steps) && stream < MAX_STREAMS
    ensures FirstBindings(ApplyAll(steps).lists[stream], Seen(steps, stream))
  {
    SessionAccumulates(steps, stream);
    FreezeIsFirstBindings(Seen(steps, stream));
  }

  // Each list only ever grows at its end.
  lemma {:induction false} SessionAppends(steps: seq<Step>, more: seq<Step>, stream: nat)
    requires Lossless(steps + more) && stream < MAX_STREAMS
    ensures Lossless(steps)
    ensures ApplyAll(steps).lists[stream] <= ApplyAll(steps + more).lists[stream]
  {
    if more == [] {
      assert steps + more == steps;
    } else {
      var less, step := more[..|more| - 1], more[|more| - 1];
      assert (steps + more)[..|steps + more| - 1] == steps + less;
      SessionAppends(steps, less, stream);
      LosslessStepKeeps(ApplyAll(steps + less), step, stream);
      if step.Negotiated? && stream < |step.result| <= MAX_STREAMS { FreezeAppends(ApplyAll(steps + less).lists[stream], step.result[stream]); }
    }
  }

  /** At every point of the session, each list is what freezing everything negotiated on its stream makes. */
  predicate KeepsEverything(steps: seq<Step>) {
    && (forall stream :: 0 <= stream < MAX_STREAMS ==> ApplyAll(steps).lists[stream] == Freeze([], Seen(steps, stream)))
    && (steps != [] ==> KeepsEverything(steps[..|steps| - 1]))
  }

  // Nothing frozen is ever lost in exactly the lossless sessions.
  lemma {:induction false} LosslessExactly(steps: seq<Step>)
    ensures KeepsEverything(steps) <==> Lossless(steps)
  {
    hide Freeze, Apply, LosslessStep;
    if Lossless(steps) {
      forall stream | 0 <= stream < MAX_STREAMS ensures ApplyAll(steps).lists[stream] == Freeze([], Seen(steps, stream)) {
        SessionAccumulates(steps, stream);
      }
    }
    if steps != [] {
      LosslessExactly(steps[..|steps| - 1]);
      if Lossless(steps[..|steps| - 1]) && !Lossless(steps) { LossyStepLoses(steps); }
    }
  }

  lemma LossyStepLoses(steps: seq<Step>)
    requires steps != [] && Lossless(steps[..|steps| - 1]) && !Lossless(steps)
    ensures exists stream :: 0 <= stream < MAX_STREAMS && ApplyAll(steps).lists[stream] != Freeze([], Seen(steps, stream))
  {
    hide Freeze;
    var before := steps[..|steps| - 1];
    var l := ApplyAll(before);
    var stream :| l.nb <= stream < MAX_STREAMS && l.lists[stream] != [];
    SessionAccumulates(before, stream);
    assert Seen(steps, stream) == Seen(before, stream);
    assert ApplyAll(steps).lists[stream] == [];
  }

  /** A result has no more streams than the description it comes from, and descriptions never lose streams. */
  predicate Orderly(steps: seq<Step>) {
    steps != [] ==>
      && Orderly(steps[..|steps| - 1])
      && match steps[|steps| - 1]
         case Negotiated(result) => |result| <= ApplyAll(steps[..|steps| - 1]).nb
         case NewDescription(nb) => ApplyAll(steps[..|steps| - 1]).nb <= nb <= MAX_STREAMS
  }

  // So it is with outgoing offers, whose result has as many streams as the local description.
  lemma {:induction false} OrderlyIsLossless(steps: seq<Step>)
    requires Orderly(steps)
    ensures Lossless(steps)
    ensures forall i :: ApplyAll(steps).nb <= i < MAX_STREAMS ==> ApplyAll(steps).lists[i] == []
  {
    hide Freeze;
    if steps != [] { OrderlyIsLossless(steps[..|steps| - 1]); }
  }

  /** An incoming offer of two streams meets a local description of one: its second stream is the one that is negotiated.
      The next local description has two streams. */
  function WiderOffer(p: Payload): seq<Step> { [NewDescription(1)] + [Negotiated([[], [p]])] + [NewDescription(2)] }

  lemma ApplyNext(steps: seq<Step>, step: Step)
    ensures ApplyAll(steps + [step]) == Apply(ApplyAll(steps), step)
    ensures Lossless(steps + [step]) <==> Lossless(steps) && LosslessStep(ApplyAll(steps), step)
  {
    hide Apply;
    assert (steps + [step])[..|steps|] == steps;
  }

  lemma FreezeOne(p: Payload)
    ensures Freeze([], [p]) == [p] && Freeze([], []) == []
  {
    assert [p][..0] == [];
  }

  // The result of an incoming offer has the streams of the remote description. Beyond the local ones, what it froze is lost
  // with the next local description, and the number can then be bound to another codec.
  lemma WiderOfferLosesBinding(p: Payload, q: Payload)
    requires q.number == p.number && q != p
    ensures ApplyAll([NewDescription(1)] + [Negotiated([[], [p]])]).lists[1] == [p]
    ensures ApplyAll(WiderOffer(p)).lists[1] == [] && !Lossless(WiderOffer(p))
    ensures ApplyAll(WiderOffer(p) + [Negotiated([[], [q]])]).lists[1] == [q]
  {
    hide ApplyAll, Freeze, Lossless;
    NewCallIsEmpty();
    FreezeOne(p);
    FreezeOne(q);
    assert [] + [NewDescription(1)] == [NewDescription(1)];
    ApplyNext([], NewDescription(1));
    ApplyNext([NewDescription(1)], Negotiated([[], [p]]));
    ApplyNext([NewDescription(1)] + [Negotiated([[], [p]])], NewDescription(2));
    ApplyNext(WiderOffer(p), Negotiated([[], [q]]));
  }

  lemma NewCallIsEmpty()
    ensures ApplyAll([]) == NEW_CALL
  {
  }

  // A new description loses bindings exactly when a stream beyond the old one's count has some.
  lemma RenewKeepsExactly(l: Local, nb: nat)
    requires l.Valid() && nb <= MAX_STREAMS
    ensures Renew(l, nb).lists == l.lists <==> forall i :: l.nb <= i < MAX_STREAMS ==> l.lists[i] == []
  {
    if forall i :: l.nb <= i < MAX_STREAMS ==> l.lists[i] == [] {
      assert Renew(l, nb).lists == l.lists;
    } else {
      var i :| l.nb <= i < MAX_STREAMS && l.lists[i] != [];
      assert Renew(l, nb).lists[i] != l.lists[i];
    }
  }
}
