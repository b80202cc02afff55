/** What sending and receiving do to a well-formed cache, and who can read what. */
module LimeDevices {
  import opened Wrappers
  import opened LimeCodec
  import opened LimeCache
  import opened LimeMessage

  // ---- sending: one part per complete, verified peer record; only the snd side of those records moves

  function Bump(c: Crypto, p: Peer): Peer
    requires p.Readable() && p.snd.Complete()
  {
    p.(snd := KeyFields(Derive(c, SndKey(p))))
  }

  function BumpAll(c: Crypto, peers: seq<Peer>, uri: Bytes): (r: seq<Peer>)
    requires AllReadable(peers)
    ensures |r| == |peers|
  {
    seq(|peers|, i requires 0 <= i < |peers| =>
      assert peers[i] in peers; if CanSend(peers[i], uri) then Bump(c, peers[i]) else peers[i])
  }

  lemma SndKeyNamesPeer(p: Peer)
    requires p.Readable() && p.snd.Complete() && |p.zid| == 24 && IsLowerHexText(p.zid)
    ensures Print(SndKey(p).peerZid) == p.zid
  {
    assert p.zid[..24] == p.zid;
    PrintUndoesParse(p.zid);
  }

  // The first i records handled, the others still as they were.
  function BumpUpTo(c: Crypto, peers: seq<Peer>, uri: Bytes, i: nat): (r: seq<Peer>)
    requires AllReadable(peers) && i <= |peers|
    ensures |r| == |peers|
    ensures forall n :: 0 <= n < |peers| ==> r[n].zid == peers[n].zid
    ensures forall n :: i <= n < |peers| ==> r[n] == peers[n]
  {
    seq(|peers|, n requires 0 <= n < |peers| =>
      assert peers[n] in peers; if n < i && CanSend(peers[n], uri) then Bump(c, peers[n]) else peers[n])
  }

  lemma BumpUpToStep(c: Crypto, peers: seq<Peer>, uri: Bytes, i: nat)
    requires AllReadable(peers) && i < |peers|
    ensures peers[i] in peers
    ensures BumpUpTo(c, peers, uri, i + 1)
         == if CanSend(peers[i], uri) then BumpUpTo(c, peers, uri, i)[i := Bump(c, peers[i])] else BumpUpTo(c, peers, uri, i)
  {
    hide CanSend, Bump;
    assert peers[i] in peers;
  }

  lemma {:induction false} CreateUpTo(c: Crypto, peers: seq<Peer>, uri: Bytes, j: nat)
    requires WellFormed(peers) && j <= |peers|
    ensures AllReadable(peers[..j])
    ensures StoreDerived(c, peers, SndKeys(peers[..j], uri)) == BumpUpTo(c, peers, uri, j)
  {
    if j == 0 {
      assert peers[..0] == [] && BumpUpTo(c, peers, uri, 0) == peers;
    } else {
      CreateUpTo(c, peers, uri, j - 1);
      SndKeysStep(peers, uri, j - 1);
      var keys := SndKeys(peers[..j - 1], uri);
      var sofar := BumpUpTo(c, peers, uri, j - 1);
      BumpUpToStep(c, peers, uri, j - 1);
      if CanSend(peers[j - 1], uri) {
        CreateOne(c, peers, keys, sofar, j - 1);
      } else {
        assert SndKeys(peers[..j], uri) == keys;
      }
    }
  }

  lemma CreateOne(c: Crypto, peers: seq<Peer>, keys: seq<KeyState>, sofar: seq<Peer>, i: nat)
    requires WellFormed(peers) && i < |peers| == |sofar|
    requires peers[i] in peers && peers[i].snd.Complete()
    requires sofar == StoreDerived(c, peers, keys)
    requires forall n :: 0 <= n < |peers| ==> sofar[n].zid == peers[n].zid
    requires sofar[i] == peers[i]
    ensures StoreDerived(c, peers, keys + [SndKey(peers[i])]) == sofar[i := Bump(c, peers[i])]
  {
    var key := SndKey(peers[i]);
    assert (keys + [key])[..|keys|] == keys;
    SndKeyNamesPeer(peers[i]);
    StoreUpdatesOnePeer(sofar, Derive(c, key), Sender, i);
  }

  // The cache after sending, record by record.
  lemma CreateFrame(c: Crypto, peers: seq<Peer>, uri: Bytes)
    requires c.Lawful() && WellFormed(peers)
    ensures StoreDerived(c, peers, SndKeys(peers, uri)) == BumpAll(c, peers, uri)
    ensures WellFormed(BumpAll(c, peers, uri))
  {
    CreateUpTo(c, peers, uri, |peers|);
    assert peers[..|peers|] == peers;
    assert BumpUpTo(c, peers, uri, |peers|) == BumpAll(c, peers, uri);
    BumpAllWellFormed(c, peers, uri);
  }

  lemma BumpAllWellFormed(c: Crypto, peers: seq<Peer>, uri: Bytes)
    requires c.Lawful() && WellFormed(peers)
    ensures WellFormed(BumpAll(c, peers, uri))
  {
    var after := BumpAll(c, peers, uri);
    forall i | 0 <= i < |after|
      ensures after[i].Readable() && after[i].zid == peers[i].zid && peers[i] in peers
    {
      assert peers[i] in peers;
      if CanSend(peers[i], uri) { BumpReads(c, peers[i]); }
    }
  }

  // A bumped record holds the next key of its chain.
  lemma BumpReads(c: Crypto, p: Peer)
    requires c.Lawful() && p.Readable() && p.snd.Complete()
    ensures Bump(c, p).Readable() && Bump(c, p).snd.Complete()
    ensures SndKey(Bump(c, p)) == Derive(c, SndKey(p))
  {
    ReadStored(Derive(c, SndKey(p)));
  }

  // ---- the parts of the message: exactly one for each record that can send, none for the others

  predicate ZidText(zid: Bytes) { |zid| == 24 && IsLowerHexText(zid) }

  lemma ZidTextNames(zid: Bytes)
    requires ZidText(zid)
    ensures |Parse(zid)| == 12 && Print(Parse(zid)) == zid
  {
    PrintUndoesParse(zid);
  }

  lemma PartsForStep(c: Crypto, selfZid: Bytes, keys: seq<KeyState>, key: KeyState, plain: Bytes, zidHex: Bytes)
    requires key.Sized() && forall k <- keys :: k.Sized()
    ensures PartsFor(MakeParts(c, selfZid, keys + [key], plain), zidHex)
         == PartsFor(MakeParts(c, selfZid, keys, plain), zidHex)
          + if Print(key.peerZid) == zidHex then [MakePart(c, selfZid, key, plain)] else []
  {
    var parts := MakeParts(c, selfZid, keys + [key], plain);
    assert parts[..|keys|] == MakeParts(c, selfZid, keys, plain);
    assert parts[|keys|] == MakePart(c, selfZid, key, plain);
  }

  // i is the position of the record named zidHex, or |peers| if there is none.
  predicate Position(peers: seq<Peer>, i: nat, zidHex: Bytes) {
    i <= |peers| && forall n :: 0 <= n < |peers| ==> (peers[n].zid == zidHex <==> n == i)
  }

  // One more record handled, of a device that can be written to.
  lemma PartsWithSender(c: Crypto, selfZid: Bytes, peers: seq<Peer>, uri: Bytes, plain: Bytes, i: nat, zidHex: Bytes, j: nat)
    requires WellFormed(peers) && Position(peers, i, zidHex) && j < |peers| && peers[j] in peers && CanSend(peers[j], uri)
    ensures AllReadable(peers[..j]) && AllReadable(peers[..j + 1])
    ensures PartsFor(MakeParts(c, selfZid, SndKeys(peers[..j + 1], uri), plain), zidHex)
         == PartsFor(MakeParts(c, selfZid, SndKeys(peers[..j], uri), plain), zidHex)
          + if i == j then [MakePart(c, selfZid, SndKey(peers[j]), plain)] else []
  {
    hide MakePart, SndKey, MakeParts, PartsFor, SndKeys, Print;
    SndKeysStep(peers, uri, j);
    SndKeyNamesPeer(peers[j]);
    PartsForStep(c, selfZid, SndKeys(peers[..j], uri), SndKey(peers[j]), plain, zidHex);
  }

  lemma NoParts(c: Crypto, selfZid: Bytes, plain: Bytes, zidHex: Bytes, none: seq<Peer>, uri: Bytes)
    requires none == []
    ensures PartsFor(MakeParts(c, selfZid, SndKeys(none, uri), plain), zidHex) == []
  {
  }

  lemma {:induction false} PartsUpTo(c: Crypto, selfZid: Bytes, peers: seq<Peer>, uri: Bytes, plain: Bytes, i: nat, zidHex: Bytes, j: nat)
    requires WellFormed(peers) && Position(peers, i, zidHex) && j <= |peers|
    ensures AllReadable(peers[..j])
    ensures i < |peers| ==> peers[i] in peers
    ensures PartsFor(MakeParts(c, selfZid, SndKeys(peers[..j], uri), plain), zidHex)
         == if i < j && CanSend(peers[i], uri) then [MakePart(c, selfZid, SndKey(peers[i]), plain)] else []
  {
    hide MakePart, SndKey, CanSend, MakeParts, PartsFor, SndKeys, Position;
    if j == 0 {
      NoParts(c, selfZid, plain, zidHex, peers[..0], uri);
    } else {
      PartsUpTo(c, selfZid, peers, uri, plain, i, zidHex, j - 1);
      SndKeysStep(peers, uri, j - 1);
      if CanSend(peers[j - 1], uri) {
        PartsWithSender(c, selfZid, peers, uri, plain, i, zidHex, j - 1);
      } else {
        assert SndKeys(peers[..j], uri) == SndKeys(peers[..j - 1], uri);
      }
    }
  }

  lemma OnePartPerDevice(c: Crypto, selfZid: Bytes, peers: seq<Peer>, uri: Bytes, plain: Bytes, i: nat)
    requires WellFormed(peers) && i < |peers|
    ensures peers[i] in peers
    ensures PartsFor(MakeParts(c, selfZid, SndKeys(peers, uri), plain), peers[i].zid)
         == if CanSend(peers[i], uri) then [MakePart(c, selfZid, SndKey(peers[i]), plain)] else []
    ensures CanSend(peers[i], uri) <==>
              && uri in peers[i].uris && peers[i].snd.key.Some? && peers[i].snd.sessionId.Some? && peers[i].snd.index.Some?
              && peers[i].pvs.Some? && Parse(peers[i].pvs.value[..2]) == [1]
  {
    hide CanSend, MakePart, SndKey, MakeParts, PartsFor, SndKeys;
    assert peers[..|peers|] == peers;
    CanSendExactly(peers[i], uri);
    PartsUpTo(c, selfZid, peers, uri, plain, i, peers[i].zid, |peers|);
  }

  lemma NoPartForStrangers(c: Crypto, selfZid: Bytes, peers: seq<Peer>, uri: Bytes, plain: Bytes, zidHex: Bytes)
    requires WellFormed(peers) && forall p <- peers :: p.zid != zidHex
    ensures PartsFor(MakeParts(c, selfZid, SndKeys(peers, uri), plain), zidHex) == []
  {
    assert peers[..|peers|] == peers;
    PartsUpTo(c, selfZid, peers, uri, plain, |peers|, zidHex, |peers|);
  }

  lemma SealedLength(c: Crypto, k: KeyState, selfZid: Bytes, plain: Bytes)
    requires c.Lawful() && k.Sized()
    ensures |EncryptMessage(c, k, selfZid, plain)| == |plain| + 16
  {
  }

  lemma PartsReadable(c: Crypto, selfHex: Bytes, keys: seq<KeyState>, plain: Bytes)
    requires c.Lawful() && |selfHex| == 24 && forall k <- keys :: k.Sized()
    ensures Doc(Some(selfHex), MakeParts(c, Parse(selfHex), keys, plain)).Readable()
  {
    hide IndexHex, EncryptMessage, IndexFromNibbles, IndexFromBuffer;
    var parts := MakeParts(c, Parse(selfHex), keys, plain);
    forall p | p in parts
      ensures |p.index| >= 8 && IsNibbleText(p.index) && |p.text| >= 16
    {
      var i :| 0 <= i < |parts| && parts[i] == p;
      assert keys[i] in keys;
      IndexRoundTrip(keys[i].sessionIndex);
      SealedLength(c, keys[i], Parse(selfHex), plain);
    }
  }

  // ---- receiving

  lemma FirstPeerIs(peers: seq<Peer>, j: nat)
    requires WellFormed(peers) && j < |peers|
    ensures FirstPeer(peers, peers[j].zid) == j
  {
  }

  // The receiver's own key for the sender of a message.
  function RcvSide(p: Peer): KeyState
    requires p.Readable() && p.rcv.Complete() && |p.zid| == 24
  {
    ReadKey(p.rcv, Parse(p.zid))
  }

  lemma RcvKeyIs(peers: seq<Peer>, j: nat)
    requires WellFormed(peers) && j < |peers| && peers[j] in peers
    ensures RcvKey(peers, Parse(peers[j].zid))
         == if peers[j].rcv.Complete() && peers[j].Verified() then Some(RcvSide(peers[j])) else None
  {
    ZidTextNames(peers[j].zid);
    FirstPeerIs(peers, j);
  }

  lemma ReceiveOnePart(c: Crypto, zid: Bytes, peers: seq<Peer>, j: nat, doc: Doc, part: Part)
    requires c.Lawful() && ZidText(zid) && WellFormed(peers) && doc.Readable()
    requires j < |peers| && peers[j] in peers && peers[j].rcv.Complete() && peers[j].Verified()
    requires doc.senderZid == Some(peers[j].zid) && PartsFor(doc.parts, zid) == [part]
    ensures |part.index| >= 8 && IsNibbleText(part.index)
    ensures Receive(c, zid, peers, doc) == ReceivePart(c, zid, peers, RcvSide(peers[j]), part)
  {
    RcvKeyIs(peers, j);
    assert PartsFor(doc.parts, zid)[0] == part;
    assert part in PartsFor(doc.parts, zid);
  }

  lemma ReceiveOutOfWindow(c: Crypto, zid: Bytes, peers: seq<Peer>, k: KeyState, part: Part)
    requires c.Lawful() && k.Sized() && |part.index| >= 8 && IsNibbleText(part.index)
    requires !InWindow(IndexFromNibbles(part.index), k.sessionIndex)
    ensures ReceivePart(c, zid, peers, k, part) == (Rejected(LIME_UNABLE_TO_DECRYPT_MESSAGE), peers)
  {
  }

  // A part sealed with the key the receiver reaches opens, and the receiver moves one key further.
  lemma ReceiveInWindow(c: Crypto, zid: Bytes, peers: seq<Peer>, j: nat, snd: KeyState, plain: Bytes)
    requires c.Lawful() && ZidText(zid) && WellFormed(peers)
    requires j < |peers| && peers[j] in peers && peers[j].rcv.Complete() && snd.Sized()
    requires InWindow(snd.sessionIndex, RcvSide(peers[j]).sessionIndex)
    requires Matching(snd, Parse(peers[j].zid), DeriveTimes(c, RcvSide(peers[j]), snd.sessionIndex - RcvSide(peers[j]).sessionIndex), Parse(zid))
    ensures IsNibbleText(IndexHex(snd.sessionIndex))
    ensures
      var used := DeriveTimes(c, RcvSide(peers[j]), snd.sessionIndex - RcvSide(peers[j]).sessionIndex);
      ReceivePart(c, zid, peers, RcvSide(peers[j]), MakePart(c, Parse(peers[j].zid), snd, plain))
      == (Delivered(plain), peers[j := peers[j].(rcv := KeyFields(Derive(c, used)))])
  {
    hide Store, IndexHex, IndexFromNibbles;
    var k := RcvSide(peers[j]);
    var part := MakePart(c, Parse(peers[j].zid), snd, plain);
    var used := DeriveTimes(c, k, snd.sessionIndex - k.sessionIndex);
    assert IndexFromNibbles(part.index) == snd.sessionIndex by { IndexRoundTrip(snd.sessionIndex); }
    assert DecryptMessage(c, used, Parse(zid), part.text) == Some(plain) by {
      DecryptUndoesEncrypt(c, snd, Parse(peers[j].zid), used, Parse(zid), plain);
    }
    assert Store(peers, Derive(c, used), Receiver, 0) == peers[j := peers[j].(rcv := KeyFields(Derive(c, used)))] by {
      ZidTextNames(peers[j].zid);
      StoreUpdatesOnePeer(peers, Derive(c, used), Receiver, j);
    }
  }

  // The acceptance window is exact. snd is the key the sender used, at any point of the same chain.
  lemma ReceiveExact(c: Crypto, zid: Bytes, peers: seq<Peer>, j: nat, doc: Doc, snd: KeyState, plain: Bytes)
    requires c.Lawful() && ZidText(zid) && WellFormed(peers) && doc.Readable()
    requires j < |peers| && peers[j] in peers && peers[j].rcv.Complete() && peers[j].Verified()
    requires doc.senderZid == Some(peers[j].zid) && snd.Sized()
    requires PartsFor(doc.parts, zid) == [MakePart(c, Parse(peers[j].zid), snd, plain)]
    requires RcvSide(peers[j]).sessionIndex <= snd.sessionIndex ==>
               Matching(snd, Parse(peers[j].zid), DeriveTimes(c, RcvSide(peers[j]), snd.sessionIndex - RcvSide(peers[j]).sessionIndex), Parse(zid))
    ensures var k := RcvSide(peers[j]);
            Receive(c, zid, peers, doc) ==
            if InWindow(snd.sessionIndex, k.sessionIndex) then
              var used := DeriveTimes(c, k, snd.sessionIndex - k.sessionIndex);
              (Delivered(plain), peers[j := peers[j].(rcv := KeyFields(Derive(c, used)))])
            else
              (Rejected(LIME_UNABLE_TO_DECRYPT_MESSAGE), peers)
  {
    ReceiveOnePart(c, zid, peers, j, doc, MakePart(c, Parse(peers[j].zid), snd, plain));
    if InWindow(snd.sessionIndex, RcvSide(peers[j]).sessionIndex) {
      ReceiveInWindow(c, zid, peers, j, snd, plain);
    } else {
      IndexRoundTrip(snd.sessionIndex);
      ReceiveOutOfWindow(c, zid, peers, RcvSide(peers[j]), MakePart(c, Parse(peers[j].zid), snd, plain));
    }
  }

  // Every device whose record can send extracts its own part, and gets the plaintext exactly when its own key is at most
  // 100 behind the sender's and not ahead, whatever the other records are.
  lemma MultiDeviceDelivery(c: Crypto, selfHex: Bytes, peers: seq<Peer>, uri: Bytes, plain: Bytes, i: nat, device: seq<Peer>, j: nat)
    requires c.Lawful() && ZidText(selfHex) && WellFormed(peers) && WellFormed(device)
    requires i < |peers| && peers[i] in peers && CanSend(peers[i], uri)
    requires j < |device| && device[j] in device && device[j].zid == selfHex && device[j].rcv.Complete() && device[j].Verified()
    requires var snd, rcv := SndKey(peers[i]), RcvSide(device[j]);
             rcv.sessionIndex <= snd.sessionIndex ==>
               Matching(snd, Parse(selfHex), DeriveTimes(c, rcv, snd.sessionIndex - rcv.sessionIndex), Parse(peers[i].zid))
    ensures forall k <- SndKeys(peers, uri) :: k.Sized()
    ensures var doc := Doc(Some(selfHex), MakeParts(c, Parse(selfHex), SndKeys(peers, uri), plain));
            var snd, rcv := SndKey(peers[i]), RcvSide(device[j]);
            && doc.Readable()
            && Receive(c, peers[i].zid, device, doc) ==
               if InWindow(snd.sessionIndex, rcv.sessionIndex) then
                 var used := DeriveTimes(c, rcv, snd.sessionIndex - rcv.sessionIndex);
                 (Delivered(plain), device[j := device[j].(rcv := KeyFields(Derive(c, used)))])
               else
                 (Rejected(LIME_UNABLE_TO_DECRYPT_MESSAGE), device)
  {
    hide Receive, MakeParts, MakePart, PartsFor, SndKeys, KeyFields, Derive, DeriveTimes;
    PartsReadable(c, selfHex, SndKeys(peers, uri), plain);
    OnePartPerDevice(c, Parse(selfHex), peers, uri, plain, i);
    ReceiveExact(c, peers[i].zid, device, j, Doc(Some(selfHex), MakeParts(c, Parse(selfHex), SndKeys(peers, uri), plain)),
                 SndKey(peers[i]), plain);
  }

  lemma NextIndex(x: nat)
    ensures (x % 0x1_0000_0000 + 1) % 0x1_0000_0000 == (x + 1) % 0x1_0000_0000
  {
  }

  lemma {:induction false} DerivedIndex(c: Crypto, k: KeyState, n: nat)
    ensures DeriveTimes(c, k, n).sessionIndex == (k.sessionIndex + n) % 0x1_0000_0000
  {
    hide DerivationInput;
    if n > 0 {
      DerivedIndex(c, k, n - 1);
      NextIndex(k.sessionIndex + n - 1);
    }
  }

  // The window does not wrap with the 32-bit index: a part sealed n keys ahead on the receiver's own chain is delivered
  // exactly when n is at most 100 and the index has not wrapped in between; so a receiver that is behind at the wrap refuses
  // everything until the index comes round.
  lemma WindowDoesNotWrap(c: Crypto, zid: Bytes, peers: seq<Peer>, j: nat, doc: Doc, snd: KeyState, plain: Bytes, n: nat)
    requires c.Lawful() && ZidText(zid) && WellFormed(peers) && doc.Readable()
    requires j < |peers| && peers[j] in peers && peers[j].rcv.Complete() && peers[j].Verified()
    requires doc.senderZid == Some(peers[j].zid) && snd.Sized() && n < 0x1_0000_0000
    requires PartsFor(doc.parts, zid) == [MakePart(c, Parse(peers[j].zid), snd, plain)]
    requires Matching(snd, Parse(peers[j].zid), DeriveTimes(c, RcvSide(peers[j]), n), Parse(zid))
    ensures Receive(c, zid, peers, doc) ==
            if n <= 100 && RcvSide(peers[j]).sessionIndex + n < 0x1_0000_0000 then
              (Delivered(plain), peers[j := peers[j].(rcv := KeyFields(DeriveTimes(c, RcvSide(peers[j]), n + 1)))])
            else
              (Rejected(LIME_UNABLE_TO_DECRYPT_MESSAGE), peers)
  {
    hide Receive, MakePart, KeyFields, RcvSide, PartsFor, Derive;
    DerivedIndex(c, RcvSide(peers[j]), n);
    ReceiveExact(c, zid, peers, j, doc, snd, plain);
  }
}
