/** Two devices that share a fresh key: they start a link, and what is lost on it decides whether the next message arrives. */
module LimePairing {
  import opened Wrappers
  import opened LimeCodec
  import opened LimeCache
  import opened LimeMessage
  import opened LimeDevices
  import opened LimeRatchet

  // ---- after any run, the next message arrives exactly when at most 100 before it were lost

  lemma NextMessageArrives(c: Crypto, sys: System, l: Link, acts: seq<Action>, plain: Bytes, uri: Bytes)
    requires c.Lawful() && SystemOk(sys) && Started(c, sys, l)
    requires l.origin.sessionIndex + Sends(acts) < 0xFFFF_FFFF
    ensures Linked(Run(c, sys, acts), l)
    ensures
      var end := Run(c, sys, acts);
      var sent := Step(c, end, Send(l.a, plain, uri));
      var received := Step(c, sent, Deliver(l.b, |end.wire|));
      CanSend(end.devices[l.a].peers[l.i], uri) ==>
        if SndNow(end, l).sessionIndex - RcvNow(end, l).sessionIndex <= 100 then
          && received.log == end.log + [Accepted(l.b, |end.wire|, plain)]
          && Linked(received, l) && RcvNow(received, l) == SndNow(received, l).(peerZid := Parse(l.zidA))
        else
          received == sent
  {
    hide Run, Inv, Linked, SndKey, CanSend;
    var at := RunKeepsInv(c, sys, l, acts);
    NextUnderInv(c, Run(c, sys, acts), l, at, plain, uri);
  }

  lemma NextUnderInv(c: Crypto, end: System, l: Link, at: Indices, plain: Bytes, uri: Bytes)
    requires c.Lawful() && SystemOk(end) && Inv(c, end, l, at) && SndNow(end, l).sessionIndex < 0xFFFF_FFFF
    ensures Linked(end, l)
    ensures
      var sent := Step(c, end, Send(l.a, plain, uri));
      var received := Step(c, sent, Deliver(l.b, |end.wire|));
      CanSend(end.devices[l.a].peers[l.i], uri) ==>
        if SndNow(end, l).sessionIndex - RcvNow(end, l).sessionIndex <= 100 then
          && received.log == end.log + [Accepted(l.b, |end.wire|, plain)]
          && Linked(received, l) && RcvNow(received, l) == SndNow(received, l).(peerZid := Parse(l.zidA))
        else
          received == sent
  {
    hide Receive, OneChain, SndKey, RcvSide, CanSend, MessageAt, SendStep, DeliverStep, SndKeys, WireOk, LogOk, SndChain, RcvChain,
         SystemOk, Parse;
    if CanSend(end.devices[l.a].peers[l.i], uri) {
      SendOnLink(c, end, l, plain, uri);
      OnChain(c, l, SndNow(end, l), RcvNow(end, l));
      ArriveOnLink(c, SendStep(c, end, l.a, plain, uri), l, |end.wire|);
    }
  }

  lemma SendOnLink(c: Crypto, end: System, l: Link, plain: Bytes, uri: Bytes)
    requires c.Lawful() && SystemOk(end) && InSync(c, end, l) && SndNow(end, l).sessionIndex < 0xFFFF_FFFF
    requires CanSend(end.devices[l.a].peers[l.i], uri)
    ensures
      var sent := SendStep(c, end, l.a, plain, uri);
      var s := SndNow(end, l).sessionIndex;
      && SystemOk(sent) && InSync(c, sent, l) && SndNow(sent, l).sessionIndex == s + 1 && RcvNow(sent, l) == RcvNow(end, l)
      && |sent.wire| == |end.wire| + 1 && sent.log == end.log && |sent.devices| == |end.devices|
      && MessageAt(c, sent, l, |end.wire|, Some(s), s + 1) && sent.wire[|end.wire|].plain == plain
  {
    hide OneChain, SndKey, RcvSide, CanSend, MessageAt, SendStep, SndKeys, SndChain, RcvChain;
    DeviceOk(end, l.a);
    NotSending(c, end.devices[l.a].peers, uri, l.i);
    SendKeepsRecords(c, end, l, l.a, plain, uri);
    ChainAfterSend(c, l, SndNow(end, l), RcvNow(end, l));
    SentMessageAt(c, end, l, l.a, plain, uri);
    SentPlain(c, end, l.a, plain, uri);
  }

  // m is the newest message on the link.
  lemma ArriveOnLink(c: Crypto, sent: System, l: Link, m: nat)
    requires c.Lawful() && SystemOk(sent) && InSync(c, sent, l) && m < |sent.wire| && SndNow(sent, l).sessionIndex > 0
    requires MessageAt(c, sent, l, m, Some(SndNow(sent, l).sessionIndex - 1), SndNow(sent, l).sessionIndex)
    requires RcvNow(sent, l).sessionIndex < SndNow(sent, l).sessionIndex
    ensures
      var received := DeliverStep(c, sent, l.b, m);
      if SndNow(sent, l).sessionIndex - 1 - RcvNow(sent, l).sessionIndex <= 100 then
        && SystemOk(received) && received.log == sent.log + [Accepted(l.b, m, sent.wire[m].plain)]
        && Linked(received, l) && RcvNow(received, l) == SndNow(received, l).(peerZid := Parse(l.zidA))
      else
        received == sent
  {
    hide Receive, OneChain, SndKey, RcvSide, MessageAt, DeliverStep, SndChain, RcvChain;
    DeviceOk(sent, l.b);
    MessageOk(sent, m);
    var u := SndNow(sent, l).sessionIndex - 1;
    DeliverOnLink(c, sent, l, m, u);
    if u - RcvNow(sent, l).sessionIndex <= 100 {
      AcceptedRecord(c, sent, l, m, u);
      SameKey(c, l, SndNow(sent, l), RcvNow(sent, l));
    } else {
      RejectedStep(c, sent, l.b, m);
    }
  }

  lemma OnChain(c: Crypto, l: Link, snd: KeyState, rcv: KeyState)
    requires OneChain(c, l, snd, rcv)
    ensures rcv.sessionIndex <= snd.sessionIndex
  {
  }

  lemma SentPlain(c: Crypto, sys: System, d: nat, plain: Bytes, uri: Bytes)
    requires SystemOk(sys) && d < |sys.devices| && sys.devices[d] in sys.devices
    requires SndKeys(sys.devices[d].peers, uri) != []
    ensures var sent := SendStep(c, sys, d, plain, uri);
            |sent.wire| == |sys.wire| + 1 && sent.wire[|sys.wire|].plain == plain && sent.log == sys.log
            && |sent.devices| == |sys.devices|
  {
  }

  lemma RejectedStep(c: Crypto, sys: System, d: nat, m: nat)
    requires c.Lawful() && SystemOk(sys) && d < |sys.devices| && m < |sys.wire|
    requires sys.devices[d] in sys.devices && sys.wire[m] in sys.wire
    requires Receive(c, sys.devices[d].zid, sys.devices[d].peers, sys.wire[m].doc).0.Rejected?
    ensures DeliverStep(c, sys, d, m) == sys
  {
  }

  // Both ends of a chain at the same index differ only in whose ZID they carry.
  lemma SameKey(c: Crypto, l: Link, snd: KeyState, rcv: KeyState)
    requires c.Lawful() && l.origin.Sized() && l.origin.peerZid == Parse(l.zidB) && |l.zidA| == 24
    requires OneChain(c, l, snd, rcv)
    ensures RcvChain(c, l, snd.sessionIndex) == snd.(peerZid := Parse(l.zidA))
  {
    ChainMatching(c, l, snd.sessionIndex);
  }

  // ---- two devices after a ZRTP exchange: both directions of the link start, and both records can send

  const VERIFIED: Bytes := [0x30, 0x31]

  /** there is the key a uses towards b, back the key b uses towards a; each record names the other's ZID and uri. */
  function Paired(zidA: Bytes, uriA: Bytes, zidB: Bytes, uriB: Bytes, there: KeyState, back: KeyState): System {
    System([Device(zidA, [Peer(zidB, [uriB], KeyFields(there), KeyFields(back), Some(VERIFIED))]),
            Device(zidB, [Peer(zidA, [uriA], KeyFields(back), KeyFields(there), Some(VERIFIED))])], [], [])
  }

  lemma PairedStarts(c: Crypto, zidA: Bytes, uriA: Bytes, zidB: Bytes, uriB: Bytes, there: KeyState, back: KeyState)
    requires ZidText(zidA) && ZidText(zidB) && zidA != zidB
    requires there.Sized() && there.peerZid == Parse(zidB) && back.Sized() && back.peerZid == Parse(zidA)
    ensures var sys := Paired(zidA, uriA, zidB, uriB, there, back);
            && SystemOk(sys)
            && Started(c, sys, Link(0, 1, 0, 0, zidA, zidB, there)) && CanSend(sys.devices[0].peers[0], uriB)
            && Started(c, sys, Link(1, 0, 0, 0, zidB, zidA, back)) && CanSend(sys.devices[1].peers[0], uriA)
  {
    hide KeyFields, ReadKey, Parse;
    PairedRecord(zidB, uriB, there, back);
    PairedRecord(zidA, uriA, back, there);
  }

  lemma PairedRecord(zid: Bytes, uri: Bytes, snd: KeyState, rcv: KeyState)
    requires ZidText(zid) && snd.Sized() && snd.peerZid == Parse(zid) && rcv.Sized()
    ensures var p := Peer(zid, [uri], KeyFields(snd), KeyFields(rcv), Some(VERIFIED));
            && WellFormed([p]) && p.Readable() && p.Verified() && CanSend(p, uri) && p.rcv.Complete()
            && SndKey(p) == snd && RcvSide(p) == rcv.(peerZid := Parse(zid))
  {
    hide KeyFields, ReadKey, Parse;
    var p := Peer(zid, [uri], KeyFields(snd), KeyFields(rcv), Some(VERIFIED));
    ReadStored(snd);
    FieldsIgnoreZid(rcv, Parse(zid));
    ReadStored(rcv.(peerZid := Parse(zid)));
    ZidTextNames(zid);
    assert zid[..24] == zid;
    FlagIsOne();
    assert [p][0] in [p];
  }

  lemma FieldsIgnoreZid(k: KeyState, zid: Bytes)
    ensures KeyFields(k.(peerZid := zid)) == KeyFields(k)
  {
  }

  lemma FlagIsOne()
    ensures VERIFIED[..2] == VERIFIED && Parse(VERIFIED) == [1]
  {
  }

  // The laws asked of the primitives can be met.
  lemma LawfulExists()
    ensures exists c: Crypto :: c.Lawful()
  {
    var zeros: Bytes := seq(32, i => 0);
    var c := Crypto((key, data) => zeros, (key, iv, aad, plain) => zeros[..16] + plain,
                    (key, iv, aad, text) => if |text| >= 16 then Some(text[16..]) else None);
    forall key, iv, aad, plain ensures c.open(key, iv, aad, c.seal(key, iv, aad, plain)) == Some(plain) {
      assert (zeros[..16] + plain)[16..] == plain;
    }
    assert c.Lawful();
  }
}
