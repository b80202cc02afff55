/** Whole runs: any number of devices, a channel that loses, duplicates and reorders, and the ratchet between two of them. */
module LimeRatchet {
  import opened Wrappers
  import opened LimeCodec
  import opened LimeCache
  import opened LimeMessage
  import opened LimeDevices

  datatype Device = Device(zid: Bytes, peers: seq<Peer>)

  /** A message on the wire, with the device that made it and its plaintext for the record. */
  datatype Sent = Sent(from: nat, plain: Bytes, doc: Doc)

  datatype Accepted = Accepted(device: nat, message: nat, plain: Bytes)

  datatype System = System(devices: seq<Device>, wire: seq<Sent>, log: seq<Accepted>)

  /** Delivering picks any message ever sent, any number of times and in any order; a lost one is never picked. */
  datatype Action = Send(device: nat, plain: Bytes, uri: Bytes) | Deliver(device: nat, message: nat)

  predicate SystemOk(sys: System) {
    && (forall d <- sys.devices :: ZidText(d.zid) && WellFormed(d.peers))
    && (forall a, b :: 0 <= a < b < |sys.devices| ==> sys.devices[a].zid != sys.devices[b].zid)
    && (forall m <- sys.wire :: m.doc.Readable() && m.from < |sys.devices| && m.doc.senderZid == Some(sys.devices[m.from].zid))
  }

  function SendStep(c: Crypto, sys: System, d: nat, plain: Bytes, uri: Bytes): System
    requires SystemOk(sys) && d < |sys.devices|
  {
    assert sys.devices[d] in sys.devices;
    var dev := sys.devices[d];
    var keys := SndKeys(dev.peers, uri);
    if keys == [] then sys
    else sys.(devices := sys.devices[d := dev.(peers := StoreDerived(c, dev.peers, keys))],
              wire := sys.wire + [Sent(d, plain, Doc(Some(dev.zid), MakeParts(c, Parse(dev.zid), keys, plain)))])
  }

  function DeliverStep(c: Crypto, sys: System, d: nat, m: nat): System
    requires c.Lawful() && SystemOk(sys) && d < |sys.devices| && m < |sys.wire|
  {
    assert sys.devices[d] in sys.devices && sys.wire[m] in sys.wire;
    var dev := sys.devices[d];
    match Receive(c, dev.zid, dev.peers, sys.wire[m].doc)
    case (Rejected(_), _) => sys
    case (Delivered(plain), peers) =>
      sys.(devices := sys.devices[d := dev.(peers := peers)], log := sys.log + [Accepted(d, m, plain)])
  }

  function Step(c: Crypto, sys: System, act: Action): (r: System)
    requires c.Lawful() && SystemOk(sys)
    ensures SystemOk(r)
  {
    match act
    case Send(d, plain, uri) =>
      if d < |sys.devices| then SendStepOk(c, sys, d, plain, uri); SendStep(c, sys, d, plain, uri) else sys
    case Deliver(d, m) =>
      if d < |sys.devices| && m < |sys.wire| then DeliverStepOk(c, sys, d, m); DeliverStep(c, sys, d, m) else sys
  }

  function Run(c: Crypto, sys: System, acts: seq<Action>): (r: System)
    requires c.Lawful() && SystemOk(sys)
    ensures SystemOk(r)
  {
    if acts == [] then sys else Step(c, Run(c, sys, acts[..|acts| - 1]), acts[|acts| - 1])
  }

  function Sends(acts: seq<Action>): (n: nat)
    ensures n <= |acts|
  {
    if acts == [] then 0 else Sends(acts[..|acts| - 1]) + if acts[|acts| - 1].Send? then 1 else 0
  }

  // ---- every step keeps the system well formed

  lemma SendStepOk(c: Crypto, sys: System, d: nat, plain: Bytes, uri: Bytes)
    requires c.Lawful() && SystemOk(sys) && d < |sys.devices|
    ensures SystemOk(SendStep(c, sys, d, plain, uri))
  {
    hide MakeParts, StoreDerived, BumpAll;
    var dev := sys.devices[d];
    assert dev in sys.devices;
    CreateFrame(c, dev.peers, uri);
    PartsReadable(c, dev.zid, SndKeys(dev.peers, uri), plain);
  }

  // Whatever is received, at most the rcv side of the sender's record changes.
  predicate OnlyRcvOf(before: seq<Peer>, after: seq<Peer>, sender: Bytes) {
    && |after| == |before|
    && forall i :: 0 <= i < |before| ==>
         && after[i] == before[i].(rcv := after[i].rcv)
         && (before[i].zid != sender ==> after[i] == before[i])
  }

  lemma ReceivePartFrame(c: Crypto, zid: Bytes, peers: seq<Peer>, j: nat, k: KeyState, part: Part)
    requires c.Lawful() && WellFormed(peers) && j < |peers| && peers[j].rcv.Complete()
    requires k.Sized() && Print(k.peerZid) == peers[j].zid && |part.index| >= 8 && IsNibbleText(part.index)
    ensures WellFormed(ReceivePart(c, zid, peers, k, part).1)
    ensures OnlyRcvOf(peers, ReceivePart(c, zid, peers, k, part).1, peers[j].zid)
  {
    hide DecryptMessage, IndexFromNibbles;
    if ReceivePart(c, zid, peers, k, part).0.Delivered? {
      var n := IndexFromNibbles(part.index) - k.sessionIndex;
      DeriveTimesSized(c, k, n);
      var next := Derive(c, DeriveTimes(c, k, n));
      StoreUpdatesOnePeer(peers, next, Receiver, j);
      StoreRcvOk(peers, next, j);
    }
  }

  lemma StoreRcvOk(peers: seq<Peer>, k: KeyState, j: nat)
    requires WellFormed(peers) && j < |peers| && k.Sized()
    ensures WellFormed(peers[j := peers[j].(rcv := KeyFields(k))])
  {
    var after := peers[j := peers[j].(rcv := KeyFields(k))];
    assert peers[j] in peers;
    assert KeyFields(k).Readable();
    forall i | 0 <= i < |after| ensures after[i].Readable() && after[i].zid == peers[i].zid && peers[i] in peers {}
  }

  lemma RcvKeyPeer(peers: seq<Peer>, sender: Bytes)
    requires AllReadable(peers) && ZidText(sender) && RcvKey(peers, Parse(sender)).Some?
    ensures var j := FirstPeer(peers, sender);
            j < |peers| && peers[j].zid == sender && peers[j].rcv.Complete()
  {
    ZidTextNames(sender);
  }

  lemma OnlyRcvOfSelf(peers: seq<Peer>, sender: Bytes)
    ensures OnlyRcvOf(peers, peers, sender)
  {
  }

  lemma ReceiveFrame(c: Crypto, zid: Bytes, peers: seq<Peer>, doc: Doc)
    requires c.Lawful() && ZidText(zid) && WellFormed(peers) && doc.Readable()
    requires doc.senderZid.Some? && ZidText(doc.senderZid.value)
    ensures WellFormed(Receive(c, zid, peers, doc).1)
    ensures OnlyRcvOf(peers, Receive(c, zid, peers, doc).1, doc.senderZid.value)
  {
    hide ReceivePart, RcvKey, OnlyRcvOf;
    var sender := doc.senderZid.value;
    ZidTextNames(sender);
    var j := FirstPeer(peers, sender);
    OnlyRcvOfSelf(peers, sender);
    if RcvKey(peers, Parse(sender)).Some? && PartsFor(doc.parts, zid) != [] {
      RcvKeyPeer(peers, sender);
      var mine := PartsFor(doc.parts, zid);
      assert mine[|mine| - 1] in mine;
      ReceivePartFrame(c, zid, peers, j, RcvKey(peers, Parse(sender)).value, mine[|mine| - 1]);
    }
  }

  lemma DeliverStepOk(c: Crypto, sys: System, d: nat, m: nat)
    requires c.Lawful() && SystemOk(sys) && d < |sys.devices| && m < |sys.wire|
    ensures SystemOk(DeliverStep(c, sys, d, m))
  {
    hide Receive;
    var dev := sys.devices[d];
    assert dev in sys.devices && sys.wire[m] in sys.wire;
    assert sys.devices[sys.wire[m].from] in sys.devices;
    ReceiveFrame(c, dev.zid, dev.peers, sys.wire[m].doc);
  }

  // ---- the ratchet between two devices

  /** Device a's record i is device b, and device b's record j is device a. origin is the key a would use first. */
  datatype Link = Link(a: nat, b: nat, i: nat, j: nat, zidA: Bytes, zidB: Bytes, origin: KeyState)

  predicate Linked(sys: System, l: Link)
    requires SystemOk(sys)
  {
    && l.a < |sys.devices| && l.b < |sys.devices| && l.a != l.b
    && sys.devices[l.a].zid == l.zidA && sys.devices[l.b].zid == l.zidB
    && l.i < |sys.devices[l.a].peers| && l.j < |sys.devices[l.b].peers|
    && sys.devices[l.a].peers[l.i].zid == l.zidB && sys.devices[l.b].peers[l.j].zid == l.zidA
    && sys.devices[l.a].peers[l.i].Readable() && sys.devices[l.b].peers[l.j].Readable()
    && sys.devices[l.a].peers[l.i].snd.Complete()
    && sys.devices[l.b].peers[l.j].rcv.Complete() && sys.devices[l.b].peers[l.j].Verified()
    && l.origin.Sized() && l.origin.peerZid == Parse(l.zidB)
  }

  function SndNow(sys: System, l: Link): KeyState
    requires SystemOk(sys) && Linked(sys, l)
  {
    SndKey(sys.devices[l.a].peers[l.i])
  }

  function RcvNow(sys: System, l: Link): KeyState
    requires SystemOk(sys) && Linked(sys, l)
  {
    RcvSide(sys.devices[l.b].peers[l.j])
  }

  // The n-th key of the chain, as the sender and as the receiver hold it.
  function SndChain(c: Crypto, l: Link, n: nat): KeyState
    requires l.origin.sessionIndex <= n
  {
    DeriveTimes(c, l.origin, n - l.origin.sessionIndex)
  }

  function RcvChain(c: Crypto, l: Link, n: nat): KeyState
    requires l.origin.sessionIndex <= n
  {
    DeriveTimes(c, l.origin.(peerZid := Parse(l.zidA)), n - l.origin.sessionIndex)
  }

  /** Two keys of one chain, the receiver's not ahead of the sender's. */
  predicate OneChain(c: Crypto, l: Link, snd: KeyState, rcv: KeyState) {
    && l.origin.sessionIndex <= rcv.sessionIndex <= snd.sessionIndex
    && snd == SndChain(c, l, snd.sessionIndex) && rcv == RcvChain(c, l, rcv.sessionIndex)
  }

  predicate InSync(c: Crypto, sys: System, l: Link)
    requires SystemOk(sys)
  {
    Linked(sys, l) && OneChain(c, l, SndNow(sys, l), RcvNow(sys, l))
  }

  /** at[m] is the chain index message m used for b, if a made it and it has a part for b. */
  type Indices = seq<Option<nat>>

  predicate MessageAt(c: Crypto, sys: System, l: Link, m: nat, u: Option<nat>, s: nat)
    requires m < |sys.wire|
  {
    var parts := PartsFor(sys.wire[m].doc.parts, l.zidB);
    match u
    case None => sys.wire[m].from == l.a ==> parts == []
    case Some(n) =>
      && sys.wire[m].from == l.a && l.origin.sessionIndex <= n < s && SndChain(c, l, n).Sized()
      && parts == [MakePart(c, Parse(l.zidA), SndChain(c, l, n), sys.wire[m].plain)]
  }

  predicate WireOk(c: Crypto, sys: System, l: Link, at: Indices, s: nat) {
    && |at| == |sys.wire|
    && (forall m :: 0 <= m < |at| ==> MessageAt(c, sys, l, m, at[m], s))
    && (forall m, n :: 0 <= m < n < |at| && at[m].Some? && at[n].Some? ==> at[m].value < at[n].value)
  }

  /** The n-th accepted message is one from a, accepted by b. */
  predicate OnLink(sys: System, l: Link, n: nat)
    requires n < |sys.log|
  {
    && sys.log[n].device == l.b
    && sys.log[n].message < |sys.wire| && sys.wire[sys.log[n].message].from == l.a
  }

  predicate LogOk(sys: System, l: Link, at: Indices, r: nat)
    requires |at| == |sys.wire|
  {
    && (forall n :: 0 <= n < |sys.log| ==> sys.log[n].message < |sys.wire|)
    && (forall n :: 0 <= n < |sys.log| && OnLink(sys, l, n) ==>
          var m := sys.log[n].message;
          at[m].Some? && at[m].value < r && sys.log[n].plain == sys.wire[m].plain)
    && (forall n, k :: 0 <= n < k < |sys.log| && OnLink(sys, l, n) && OnLink(sys, l, k) ==>
          at[sys.log[n].message].value < at[sys.log[k].message].value)
  }

  predicate Inv(c: Crypto, sys: System, l: Link, at: Indices)
    requires SystemOk(sys)
  {
    && InSync(c, sys, l)
    && WireOk(c, sys, l, at, SndNow(sys, l).sessionIndex)
    && LogOk(sys, l, at, RcvNow(sys, l).sessionIndex)
  }

  // -- sending

  lemma SentRecord(c: Crypto, peers: seq<Peer>, uri: Bytes, n: nat)
    requires c.Lawful() && WellFormed(peers) && n < |peers| && peers[n] in peers
    ensures var after := StoreDerived(c, peers, SndKeys(peers, uri));
      && |after| == |peers|
      && after[n] == if CanSend(peers[n], uri) then Bump(c, peers[n]) else peers[n]
  {
    CreateFrame(c, peers, uri);
  }

  // Replacing one device's records changes only that device's end of the link.
  lemma RecordsAfterUpdate(sys: System, sys': System, l: Link, d: nat, peers: seq<Peer>)
    requires SystemOk(sys) && SystemOk(sys') && Linked(sys, l) && d < |sys.devices|
    requires sys'.devices == sys.devices[d := sys.devices[d].(peers := peers)] && |peers| == |sys.devices[d].peers|
    requires d == l.a ==> peers[l.i].zid == l.zidB && peers[l.i].Readable() && peers[l.i].snd.Complete()
    requires d == l.b ==> peers[l.j].zid == l.zidA && peers[l.j].Readable() && peers[l.j].rcv.Complete() && peers[l.j].Verified()
    ensures Linked(sys', l)
    ensures SndNow(sys', l) == if d == l.a then SndKey(peers[l.i]) else SndNow(sys, l)
    ensures RcvNow(sys', l) == if d == l.b then RcvSide(peers[l.j]) else RcvNow(sys, l)
  {
    hide SystemOk, SndKey, RcvSide;
  }

  lemma SendKeepsRecords(c: Crypto, sys: System, l: Link, d: nat, plain: Bytes, uri: Bytes)
    requires c.Lawful() && SystemOk(sys) && Linked(sys, l) && d < |sys.devices|
    ensures SystemOk(SendStep(c, sys, d, plain, uri)) && Linked(SendStep(c, sys, d, plain, uri), l)
    ensures RcvNow(SendStep(c, sys, d, plain, uri), l) == RcvNow(sys, l)
    ensures SndNow(SendStep(c, sys, d, plain, uri), l)
         == if d == l.a && CanSend(sys.devices[l.a].peers[l.i], uri) then Derive(c, SndNow(sys, l)) else SndNow(sys, l)
  {
    hide StoreDerived, MakeParts, SystemOk, SndKey, CanSend;
    SendStepOk(c, sys, d, plain, uri);
    DeviceOk(sys, d);
    var peers := sys.devices[d].peers;
    var after := StoreDerived(c, peers, SndKeys(peers, uri));
    if d == l.a {
      SentRecord(c, peers, uri, l.i);
      if CanSend(peers[l.i], uri) { BumpReads(c, peers[l.i]); }
      NotSending(c, peers, uri, l.i);
    } else if d == l.b {
      SentRecord(c, peers, uri, l.j);
      NotSending(c, peers, uri, l.j);
      BumpKeepsRcv(c, peers[l.j], after[l.j], uri);
    }
    if SndKeys(peers, uri) != [] {
      RecordsAfterUpdate(sys, SendStep(c, sys, d, plain, uri), l, d, after);
    }
  }

  lemma BumpKeepsRcv(c: Crypto, p: Peer, after: Peer, uri: Bytes)
    requires c.Lawful() && p.Readable() && after == if CanSend(p, uri) then Bump(c, p) else p
    ensures after.Readable() && after.zid == p.zid && after.rcv == p.rcv && after.pvs == p.pvs
  {
    if CanSend(p, uri) { BumpReads(c, p); }
  }

  // A record that can send has a key among those of its uri.
  lemma {:induction false} NotSending(c: Crypto, peers: seq<Peer>, uri: Bytes, n: nat)
    requires AllReadable(peers) && n < |peers| && peers[n] in peers
    ensures SndKeys(peers, uri) == [] ==> !CanSend(peers[n], uri)
  {
    hide SndKey, CanSend;
    if n < |peers| - 1 {
      assert peers[..|peers| - 1][n] in peers[..|peers| - 1];
      NotSending(c, peers[..|peers| - 1], uri, n);
    }
  }

  lemma DeviceOk(sys: System, d: nat)
    requires SystemOk(sys) && d < |sys.devices|
    ensures sys.devices[d] in sys.devices && WellFormed(sys.devices[d].peers) && ZidText(sys.devices[d].zid)
    ensures forall n :: 0 <= n < |sys.devices[d].peers| ==> sys.devices[d].peers[n] in sys.devices[d].peers
  {
    assert sys.devices[d] in sys.devices;
  }

  lemma ChainAfterSend(c: Crypto, l: Link, snd: KeyState, rcv: KeyState)
    requires OneChain(c, l, snd, rcv) && snd.sessionIndex < 0xFFFF_FFFF
    ensures OneChain(c, l, Derive(c, snd), rcv)
    ensures Derive(c, snd).sessionIndex == snd.sessionIndex + 1
  {
  }

  // What the message just made holds for b.
  lemma SentMessageAt(c: Crypto, sys: System, l: Link, d: nat, plain: Bytes, uri: Bytes)
    requires c.Lawful() && SystemOk(sys) && InSync(c, sys, l) && d < |sys.devices|
    requires sys.devices[d] in sys.devices && sys.devices[l.a].peers[l.i] in sys.devices[l.a].peers
    requires SndKeys(sys.devices[d].peers, uri) != []
    ensures SystemOk(SendStep(c, sys, d, plain, uri)) && |SendStep(c, sys, d, plain, uri).wire| == |sys.wire| + 1
    ensures
      var s := SndNow(sys, l).sessionIndex;
      var u := if d == l.a && CanSend(sys.devices[l.a].peers[l.i], uri) then Some(s) else None;
      MessageAt(c, SendStep(c, sys, d, plain, uri), l, |sys.wire|, u, s + 1)
  {
    hide MakePart, SndKey, StoreDerived;
    SendStepOk(c, sys, d, plain, uri);
    if d == l.a {
      OnePartPerDevice(c, Parse(l.zidA), sys.devices[d].peers, uri, plain, l.i);
    }
  }

  lemma SendGrows(c: Crypto, sys: System, d: nat, plain: Bytes, uri: Bytes)
    requires SystemOk(sys) && d < |sys.devices| && sys.devices[d] in sys.devices
    ensures var sys' := SendStep(c, sys, d, plain, uri);
      && sys'.log == sys.log
      && if SndKeys(sys.devices[d].peers, uri) == [] then sys' == sys
         else |sys'.wire| == |sys.wire| + 1 && sys'.wire[..|sys.wire|] == sys.wire
  {
  }

  lemma SendKeepsInv(c: Crypto, sys: System, l: Link, at: Indices, d: nat, plain: Bytes, uri: Bytes)
    returns (at': Indices)
    requires c.Lawful() && SystemOk(sys) && Inv(c, sys, l, at) && d < |sys.devices|
    requires SndNow(sys, l).sessionIndex < 0xFFFF_FFFF
    ensures SystemOk(SendStep(c, sys, d, plain, uri)) && Inv(c, SendStep(c, sys, d, plain, uri), l, at')
    ensures SndNow(SendStep(c, sys, d, plain, uri), l).sessionIndex <= SndNow(sys, l).sessionIndex + 1
  {
    hide SendStep, OneChain, SndKey, RcvSide, CanSend, MessageAt;
    assert sys.devices[d] in sys.devices && sys.devices[l.a] in sys.devices;
    assert sys.devices[l.a].peers[l.i] in sys.devices[l.a].peers;
    SendGrows(c, sys, d, plain, uri);
    var sys' := SendStep(c, sys, d, plain, uri);
    if SndKeys(sys.devices[d].peers, uri) == [] {
      at' := at;
    } else {
      var s := SndNow(sys, l).sessionIndex;
      var moves := d == l.a && CanSend(sys.devices[l.a].peers[l.i], uri);
      at' := at + [if moves then Some(s) else None];
      SendKeepsRecords(c, sys, l, d, plain, uri);
      SentMessageAt(c, sys, l, d, plain, uri);
      ChainAfterSend(c, l, SndNow(sys, l), RcvNow(sys, l));
      MessageLater(c, sys', l, |sys.wire|, at'[|at|], s, s + 1);
      SendKeepsWire(c, sys, sys', l, at, at', s, if moves then s + 1 else s);
      SendKeepsLog(sys, sys', l, at, at', RcvNow(sys, l).sessionIndex);
    }
  }

  lemma MessageLater(c: Crypto, sys: System, l: Link, m: nat, u: Option<nat>, s: nat, s': nat)
    requires m < |sys.wire| && MessageAt(c, sys, l, m, u, s')
    ensures u.None? ==> MessageAt(c, sys, l, m, u, s)
  {
  }

  lemma SendKeepsLog(sys: System, sys': System, l: Link, at: Indices, at': Indices, r: nat)
    requires |at| == |sys.wire| && |at'| == |sys'.wire| == |sys.wire| + 1
    requires LogOk(sys, l, at, r) && sys'.log == sys.log
    requires sys'.wire[..|sys.wire|] == sys.wire && at'[..|at|] == at
    ensures LogOk(sys', l, at', r)
  {
    forall m | 0 <= m < |at| ensures at'[m] == at[m] && sys'.wire[m] == sys.wire[m] {
      assert at'[m] == at'[..|at|][m] && sys'.wire[m] == sys'.wire[..|sys.wire|][m];
    }
    forall n | 0 <= n < |sys.log| ensures OnLink(sys', l, n) <==> OnLink(sys, l, n) {}
  }

  lemma SendKeepsWire(c: Crypto, sys: System, sys': System, l: Link, at: Indices, at': Indices, s: nat, s': nat)
    requires WireOk(c, sys, l, at, s) && s <= s'
    requires |sys'.wire| == |sys.wire| + 1 && sys'.wire[..|sys.wire|] == sys.wire
    requires |at'| == |at| + 1 && at'[..|at|] == at && (at'[|at|] == None || at'[|at|] == Some(s))
    requires MessageAt(c, sys', l, |sys.wire|, at'[|at|], s')
    ensures WireOk(c, sys', l, at', s')
  {
    hide MakePart, PartsFor, SndChain;
    forall m | 0 <= m < |at'| ensures MessageAt(c, sys', l, m, at'[m], s') {
      if m < |at| {
        assert MessageAt(c, sys, l, m, at[m], s);
        assert sys'.wire[m] == sys'.wire[..|sys.wire|][m] && at'[m] == at'[..|at|][m];
      }
    }
    forall m, n | 0 <= m < n < |at'| && at'[m].Some? && at'[n].Some? ensures at'[m].value < at'[n].value {
      assert at'[m] == at'[..|at|][m];
      assert MessageAt(c, sys, l, m, at[m], s);
      if n < |at| { assert at'[n] == at'[..|at|][n]; }
    }
  }

  // -- delivering

  // A delivery to another device, or of another device's message, leaves both ends alone.
  lemma DeliverElsewhere(c: Crypto, sys: System, l: Link, d: nat, m: nat)
    requires c.Lawful() && SystemOk(sys) && Linked(sys, l) && d < |sys.devices| && m < |sys.wire|
    requires d != l.b || sys.wire[m].from != l.a
    ensures SystemOk(DeliverStep(c, sys, d, m)) && Linked(DeliverStep(c, sys, d, m), l)
    ensures SndNow(DeliverStep(c, sys, d, m), l) == SndNow(sys, l) && RcvNow(DeliverStep(c, sys, d, m), l) == RcvNow(sys, l)
    ensures DeliverStep(c, sys, d, m).wire == sys.wire
  {
    hide Receive, SndKey, RcvSide, SystemOk;
    DeliverStepOk(c, sys, d, m);
    var from := sys.wire[m].from;
    DeviceOk(sys, d);
    MessageOk(sys, m);
    var dev := sys.devices[d];
    ReceiveFrame(c, dev.zid, dev.peers, sys.wire[m].doc);
    var after := Receive(c, dev.zid, dev.peers, sys.wire[m].doc).1;
    if d == l.b { DistinctZids(sys, from, l.a); }
    if DeliverStep(c, sys, d, m) != sys {
      if d == l.a { SndKeyKept(dev.peers[l.i], after[l.i]); }
      RecordsAfterUpdate(sys, DeliverStep(c, sys, d, m), l, d, after);
    }
  }

  lemma SndKeyKept(p: Peer, after: Peer)
    requires p.Readable() && p.snd.Complete() && after == p.(rcv := after.rcv) && after.Readable()
    ensures SndKey(after) == SndKey(p)
  {
  }

  lemma MessageOk(sys: System, m: nat)
    requires SystemOk(sys) && m < |sys.wire|
    ensures sys.wire[m] in sys.wire && sys.wire[m].doc.Readable() && sys.wire[m].from < |sys.devices|
    ensures sys.wire[m].doc.senderZid == Some(sys.devices[sys.wire[m].from].zid) && ZidText(sys.devices[sys.wire[m].from].zid)
  {
    assert sys.wire[m] in sys.wire && sys.devices[sys.wire[m].from] in sys.devices;
  }

  lemma DistinctZids(sys: System, a: nat, b: nat)
    requires SystemOk(sys) && a < |sys.devices| && b < |sys.devices| && a != b
    ensures sys.devices[a].zid != sys.devices[b].zid
  {
    if a < b {} else {}
  }

  lemma CatchUpOnChain(c: Crypto, l: Link, rcv: KeyState, u: nat)
    requires l.origin.sessionIndex <= rcv.sessionIndex <= u < 0x1_0000_0000
    requires rcv == RcvChain(c, l, rcv.sessionIndex)
    ensures DeriveTimes(c, rcv, u - rcv.sessionIndex) == RcvChain(c, l, u)
    ensures RcvChain(c, l, u).sessionIndex == u
  {
    hide DeriveTimes, Parse;
    CatchUpFrom(c, l.origin.(peerZid := Parse(l.zidA)), rcv.sessionIndex, u);
  }

  lemma CatchUpFrom(c: Crypto, start: KeyState, r: nat, u: nat)
    requires start.sessionIndex <= r <= u < 0x1_0000_0000
    ensures DeriveTimes(c, DeriveTimes(c, start, r - start.sessionIndex), u - r) == DeriveTimes(c, start, u - start.sessionIndex)
    ensures DeriveTimes(c, start, u - start.sessionIndex).sessionIndex == u
  {
    hide DeriveTimes;
    DeriveTimesAdd(c, start, r - start.sessionIndex, u - r);
    DeriveTimesIndex(c, start, u - start.sessionIndex);
  }

  lemma ChainMatching(c: Crypto, l: Link, u: nat)
    requires c.Lawful() && l.origin.sessionIndex <= u
    requires l.origin.Sized() && l.origin.peerZid == Parse(l.zidB) && |l.zidA| == 24
    ensures Matching(SndChain(c, l, u), Parse(l.zidA), RcvChain(c, l, u), Parse(l.zidB))
  {
    DeriveTimesMatching(c, l.origin, Parse(l.zidA), l.origin.(peerZid := Parse(l.zidA)), Parse(l.zidB), u - l.origin.sessionIndex);
  }

  // A delivery on the link: accepted with the right plaintext exactly when it is inside the window.
  lemma DeliverOnLink(c: Crypto, sys: System, l: Link, m: nat, u: nat)
    requires c.Lawful() && SystemOk(sys) && InSync(c, sys, l) && m < |sys.wire|
    requires MessageAt(c, sys, l, m, Some(u), SndNow(sys, l).sessionIndex)
    requires sys.devices[l.b] in sys.devices && sys.wire[m] in sys.wire
    ensures
      var dev := sys.devices[l.b];
      Receive(c, dev.zid, dev.peers, sys.wire[m].doc) ==
      if InWindow(u, RcvNow(sys, l).sessionIndex) then
        (Delivered(sys.wire[m].plain), dev.peers[l.j := dev.peers[l.j].(rcv := KeyFields(RcvChain(c, l, u + 1)))])
      else
        (Rejected(LIME_UNABLE_TO_DECRYPT_MESSAGE), dev.peers)
  {
    hide Receive, KeyFields, RcvSide, MakePart, SndKey, PartsFor, Parse, Derive, SystemOk;
    var dev := sys.devices[l.b];
    DeviceOk(sys, l.a);
    DeviceOk(sys, l.b);
    MessageOk(sys, m);
    var r := RcvNow(sys, l).sessionIndex;
    DeriveTimesIndex(c, l.origin, u - l.origin.sessionIndex);
    ChainMatching(c, l, u);
    if r <= u {
      CatchUpOnChain(c, l, RcvNow(sys, l), u);
      assert Derive(c, RcvChain(c, l, u)) == RcvChain(c, l, u + 1);
    }
    ReceiveExact(c, dev.zid, dev.peers, l.j, sys.wire[m].doc, SndChain(c, l, u), sys.wire[m].plain);
  }

  lemma DeliverWithoutPart(c: Crypto, sys: System, l: Link, m: nat)
    requires c.Lawful() && SystemOk(sys) && Linked(sys, l) && m < |sys.wire| && sys.wire[m].from == l.a
    requires PartsFor(sys.wire[m].doc.parts, l.zidB) == []
    requires sys.devices[l.b] in sys.devices && sys.wire[m] in sys.wire
    ensures Receive(c, sys.devices[l.b].zid, sys.devices[l.b].peers, sys.wire[m].doc).0.Rejected?
  {
    hide ReceivePart;
  }

  // The log grows by an accepted message of the link: its index is beyond every earlier one.
  lemma AcceptKeepsLog(c: Crypto, sys: System, sys': System, l: Link, at: Indices, s: nat, r: nat, m: nat, plain: Bytes)
    requires WireOk(c, sys, l, at, s) && LogOk(sys, l, at, r)
    requires m < |sys.wire| && at[m].Some? && r <= at[m].value && plain == sys.wire[m].plain
    requires sys'.wire == sys.wire && sys'.log == sys.log + [Accepted(l.b, m, plain)]
    ensures LogOk(sys', l, at, at[m].value + 1)
  {
    hide MakePart, PartsFor, SndChain;
    assert MessageAt(c, sys, l, m, at[m], s);
    forall n | 0 <= n < |sys.log| ensures OnLink(sys', l, n) <==> OnLink(sys, l, n) {}
  }

  lemma OtherKeepsLog(sys: System, sys': System, l: Link, at: Indices, r: nat, entry: Accepted)
    requires |at| == |sys.wire| && LogOk(sys, l, at, r)
    requires sys'.wire == sys.wire && sys'.log == sys.log + [entry]
    requires entry.message < |sys.wire| && (entry.device != l.b || sys.wire[entry.message].from != l.a)
    ensures LogOk(sys', l, at, r)
  {
    forall n | 0 <= n < |sys.log| ensures OnLink(sys', l, n) <==> OnLink(sys, l, n) {}
  }

  lemma SameWireOk(c: Crypto, sys: System, sys': System, l: Link, at: Indices, s: nat)
    requires WireOk(c, sys, l, at, s) && sys'.wire == sys.wire
    ensures WireOk(c, sys', l, at, s)
  {
    forall m | 0 <= m < |at| ensures MessageAt(c, sys', l, m, at[m], s) {
      assert MessageAt(c, sys, l, m, at[m], s);
    }
  }

  // The link's record at b after an accepted message.
  lemma AcceptedRecord(c: Crypto, sys: System, l: Link, m: nat, u: nat)
    requires c.Lawful() && SystemOk(sys) && InSync(c, sys, l) && m < |sys.wire|
    requires MessageAt(c, sys, l, m, Some(u), SndNow(sys, l).sessionIndex)
    requires InWindow(u, RcvNow(sys, l).sessionIndex)
    ensures SystemOk(DeliverStep(c, sys, l.b, m)) && Linked(DeliverStep(c, sys, l.b, m), l)
    ensures SndNow(DeliverStep(c, sys, l.b, m), l) == SndNow(sys, l)
    ensures RcvNow(DeliverStep(c, sys, l.b, m), l) == RcvChain(c, l, u + 1)
    ensures DeliverStep(c, sys, l.b, m).wire == sys.wire
    ensures DeliverStep(c, sys, l.b, m).log == sys.log + [Accepted(l.b, m, sys.wire[m].plain)]
  {
    hide Receive, RcvChain, KeyFields, SndKey, ReadKey, MessageAt;
    assert sys.devices[l.b] in sys.devices && sys.wire[m] in sys.wire;
    DeliverStepOk(c, sys, l.b, m);
    DeliverOnLink(c, sys, l, m, u);
    RcvChainSized(c, l, u + 1);
    ReadStored(RcvChain(c, l, u + 1));
  }

  lemma RcvChainSized(c: Crypto, l: Link, n: nat)
    requires c.Lawful() && l.origin.Sized() && |l.zidA| == 24 && l.origin.sessionIndex <= n
    ensures RcvChain(c, l, n).Sized() && RcvChain(c, l, n).peerZid == Parse(l.zidA)
  {
    DeriveTimesSized(c, l.origin.(peerZid := Parse(l.zidA)), n - l.origin.sessionIndex);
  }

  lemma DeliverKeepsInv(c: Crypto, sys: System, l: Link, at: Indices, d: nat, m: nat)
    requires c.Lawful() && SystemOk(sys) && Inv(c, sys, l, at) && d < |sys.devices| && m < |sys.wire|
    ensures SystemOk(DeliverStep(c, sys, d, m)) && Inv(c, DeliverStep(c, sys, d, m), l, at)
    ensures SndNow(DeliverStep(c, sys, d, m), l).sessionIndex == SndNow(sys, l).sessionIndex
  {
    hide Receive, OneChain, SndKey, RcvSide, LogOk, MessageAt;
    assert sys.devices[d] in sys.devices && sys.wire[m] in sys.wire;
    var sys' := DeliverStep(c, sys, d, m);
    var s, r := SndNow(sys, l).sessionIndex, RcvNow(sys, l).sessionIndex;
    assert MessageAt(c, sys, l, m, at[m], s);
    if sys' == sys {
    } else if d != l.b || sys.wire[m].from != l.a {
      DeliverElsewhere(c, sys, l, d, m);
      SameWireOk(c, sys, sys', l, at, s);
      OtherKeepsLog(sys, sys', l, at, r, sys'.log[|sys.log|]);
    } else {
      AcceptedOnLink(c, sys, l, m, at[m]);
      var u := at[m].value;
      AcceptedRecord(c, sys, l, m, u);
      AcceptedChain(c, l, SndNow(sys, l), RcvNow(sys, l), u);
      SameWireOk(c, sys, sys', l, at, s);
      AcceptKeepsLog(c, sys, sys', l, at, s, r, m, sys.wire[m].plain);
    }
  }

  // Only a message with a part for b, inside the window, changes anything.
  lemma AcceptedOnLink(c: Crypto, sys: System, l: Link, m: nat, at: Option<nat>)
    requires c.Lawful() && SystemOk(sys) && InSync(c, sys, l) && m < |sys.wire| && sys.wire[m].from == l.a
    requires MessageAt(c, sys, l, m, at, SndNow(sys, l).sessionIndex)
    requires DeliverStep(c, sys, l.b, m) != sys
    ensures at.Some? && InWindow(at.value, RcvNow(sys, l).sessionIndex) && at.value < SndNow(sys, l).sessionIndex
  {
    hide Receive, MakePart, KeyFields;
    assert sys.devices[l.b] in sys.devices && sys.wire[m] in sys.wire;
    if at.Some? { DeliverOnLink(c, sys, l, m, at.value); } else { DeliverWithoutPart(c, sys, l, m); }
  }

  lemma AcceptedChain(c: Crypto, l: Link, snd: KeyState, rcv: KeyState, u: nat)
    requires OneChain(c, l, snd, rcv) && rcv.sessionIndex <= u < snd.sessionIndex
    ensures RcvChain(c, l, u + 1).sessionIndex == u + 1 && OneChain(c, l, snd, RcvChain(c, l, u + 1))
  {
    hide Derive;
    CatchUpOnChain(c, l, rcv, u + 1);
  }

  // ---- whole runs

  // At the start: the two caches hold the same key, and nothing has been sent.
  predicate Started(c: Crypto, sys: System, l: Link)
    requires SystemOk(sys)
  {
    && Linked(sys, l) && sys.wire == [] && sys.log == []
    && SndNow(sys, l) == l.origin && RcvNow(sys, l) == l.origin.(peerZid := Parse(l.zidA))
  }

  lemma StartedInv(c: Crypto, sys: System, l: Link)
    requires SystemOk(sys) && Started(c, sys, l)
    ensures Inv(c, sys, l, [])
  {
  }

  lemma {:induction false} RunKeepsInv(c: Crypto, sys: System, l: Link, acts: seq<Action>) returns (at: Indices)
    requires c.Lawful() && SystemOk(sys) && Started(c, sys, l)
    requires l.origin.sessionIndex + Sends(acts) < 0x1_0000_0000
    ensures Inv(c, Run(c, sys, acts), l, at)
    ensures SndNow(Run(c, sys, acts), l).sessionIndex <= l.origin.sessionIndex + Sends(acts)
  {
    hide Inv, SendStep, DeliverStep, Linked, SndKey;
    if acts == [] {
      at := [];
      StartedInv(c, sys, l);
    } else {
      var before := Run(c, sys, acts[..|acts| - 1]);
      at := RunKeepsInv(c, sys, l, acts[..|acts| - 1]);
      match acts[|acts| - 1]
      case Send(d, plain, uri) =>
        if d < |before.devices| { at := SendKeepsInv(c, before, l, at, d, plain, uri); }
      case Deliver(d, m) =>
        if d < |before.devices| && m < |before.wire| { DeliverKeepsInv(c, before, l, at, d, m); }
    }
  }

  // In every run below 2^32 sends, the caches of the two devices hold keys of one chain, the receiver never ahead.
  lemma RatchetStaysInSync(c: Crypto, sys: System, l: Link, acts: seq<Action>)
    requires c.Lawful() && SystemOk(sys) && Started(c, sys, l)
    requires l.origin.sessionIndex + Sends(acts) < 0x1_0000_0000
    ensures InSync(c, Run(c, sys, acts), l)
  {
    var at := RunKeepsInv(c, sys, l, acts);
  }

  // What b accepts from a is a subsequence of what a sent, without repeats, each with the plaintext that was sent.
  lemma DeliveriesAreASubsequence(c: Crypto, sys: System, l: Link, acts: seq<Action>)
    requires c.Lawful() && SystemOk(sys) && Started(c, sys, l)
    requires l.origin.sessionIndex + Sends(acts) < 0x1_0000_0000
    ensures var end := Run(c, sys, acts);
      && (forall n :: 0 <= n < |end.log| && OnLink(end, l, n) ==> end.log[n].plain == end.wire[end.log[n].message].plain)
      && (forall n, k :: 0 <= n < k < |end.log| && OnLink(end, l, n) && OnLink(end, l, k) ==>
            end.log[n].message < end.log[k].message)
  {
    hide Run, InSync;
    var at := RunKeepsInv(c, sys, l, acts);
    LogInOrder(c, Run(c, sys, acts), l, at);
  }

  lemma EarlierIndexEarlierMessage(at: Indices, m: nat, n: nat)
    requires forall a, b :: 0 <= a < b < |at| && at[a].Some? && at[b].Some? ==> at[a].value < at[b].value
    requires m < |at| && n < |at| && at[m].Some? && at[n].Some? && at[m].value < at[n].value
    ensures m < n
  {
  }

  lemma LogInOrder(c: Crypto, end: System, l: Link, at: Indices)
    requires SystemOk(end) && Inv(c, end, l, at)
    ensures forall n :: 0 <= n < |end.log| && OnLink(end, l, n) ==> end.log[n].plain == end.wire[end.log[n].message].plain
    ensures forall n, k :: 0 <= n < k < |end.log| && OnLink(end, l, n) && OnLink(end, l, k) ==>
              end.log[n].message < end.log[k].message
  {
    hide InSync, MessageAt;
    forall n, k | 0 <= n < k < |end.log| && OnLink(end, l, n) && OnLink(end, l, k)
      ensures end.log[n].message < end.log[k].message
    {
      EarlierIndexEarlierMessage(at, end.log[n].message, end.log[k].message);
    }
  }

  // In every run, b accepts a message of a exactly when its index is at most 100 beyond the one b expects and not behind it.
  // Then b gets the plaintext that was sent and holds the chain's next key; otherwise b's cache is as it was.
  lemma DeliveryIsExact(c: Crypto, sys: System, l: Link, acts: seq<Action>, m: nat)
    requires c.Lawful() && SystemOk(sys) && Started(c, sys, l)
    requires l.origin.sessionIndex + Sends(acts) < 0x1_0000_0000
    requires m < |Run(c, sys, acts).wire| && Run(c, sys, acts).wire[m].from == l.a
    requires PartsFor(Run(c, sys, acts).wire[m].doc.parts, l.zidB) != []
    ensures Linked(Run(c, sys, acts), l)
    ensures
      var end := Run(c, sys, acts);
      var index := PartsFor(end.wire[m].doc.parts, l.zidB)[0].index;
      && |index| == 8 && IsNibbleText(index) && end.devices[l.b] in end.devices && end.wire[m] in end.wire
      && l.origin.sessionIndex <= IndexFromNibbles(index)
      && var peers := end.devices[l.b].peers;
         Receive(c, l.zidB, peers, end.wire[m].doc) ==
         if InWindow(IndexFromNibbles(index), RcvNow(end, l).sessionIndex) then
           (Delivered(end.wire[m].plain), peers[l.j := peers[l.j].(rcv := KeyFields(RcvChain(c, l, IndexFromNibbles(index) + 1)))])
         else
           (Rejected(LIME_UNABLE_TO_DECRYPT_MESSAGE), peers)
  {
    hide Run, Inv, Receive, Linked, KeyFields, RcvChain, IndexFromNibbles, PartsFor, RcvSide, SndKey, Started, SystemOk;
    var at := RunKeepsInv(c, sys, l, acts);
    DeliveryUnderInv(c, Run(c, sys, acts), l, at, m);
  }

  lemma DeliveryUnderInv(c: Crypto, end: System, l: Link, at: Indices, m: nat)
    requires c.Lawful() && SystemOk(end) && Inv(c, end, l, at)
    requires m < |end.wire| && end.wire[m].from == l.a && PartsFor(end.wire[m].doc.parts, l.zidB) != []
    ensures Linked(end, l)
    ensures
      var index := PartsFor(end.wire[m].doc.parts, l.zidB)[0].index;
      && |index| == 8 && IsNibbleText(index) && end.devices[l.b] in end.devices && end.wire[m] in end.wire
      && l.origin.sessionIndex <= IndexFromNibbles(index)
      && var peers := end.devices[l.b].peers;
         Receive(c, l.zidB, peers, end.wire[m].doc) ==
         if InWindow(IndexFromNibbles(index), RcvNow(end, l).sessionIndex) then
           (Delivered(end.wire[m].plain), peers[l.j := peers[l.j].(rcv := KeyFields(RcvChain(c, l, IndexFromNibbles(index) + 1)))])
         else
           (Rejected(LIME_UNABLE_TO_DECRYPT_MESSAGE), peers)
  {
    hide WireOk, LogOk, Receive, OneChain, IndexFromNibbles, RcvSide, SndKey, MessageAt, RcvChain, KeyFields, PartsFor;
    MessagePart(c, end, l, at, m, SndNow(end, l).sessionIndex);
    DeviceOk(end, l.b);
    assert end.wire[m] in end.wire;
    DeliverOnLink(c, end, l, m, at[m].value);
  }

  lemma MessagePart(c: Crypto, sys: System, l: Link, at: Indices, m: nat, s: nat)
    requires WireOk(c, sys, l, at, s) && m < |sys.wire| && sys.wire[m].from == l.a && s < 0x1_0000_0000
    requires PartsFor(sys.wire[m].doc.parts, l.zidB) != []
    ensures |at| == |sys.wire| && at[m].Some? && MessageAt(c, sys, l, m, at[m], s) && l.origin.sessionIndex <= at[m].value
    ensures var index := PartsFor(sys.wire[m].doc.parts, l.zidB)[0].index;
            |index| == 8 && IsNibbleText(index) && IndexFromNibbles(index) == at[m].value
  {
    hide IndexHex, IndexFromNibbles, EncryptMessage, PartsFor;
    assert MessageAt(c, sys, l, m, at[m], s);
    var u := at[m].value;
    DeriveTimesIndex(c, l.origin, u - l.origin.sessionIndex);
    IndexRoundTrip(SndChain(c, l, u).sessionIndex);
  }
}
