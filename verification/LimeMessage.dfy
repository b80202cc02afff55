/** Encryption, decryption and key derivation of coreapi/lime.c, over abstract HMAC-SHA256 and AES-GCM. */
module LimeMessage {
  import opened Wrappers
  import opened LimeCodec
  import opened LimeCache

  const MAX_DERIVATION_NUMBER: uint32 := 100

  /** The primitives: hmac(key, data); seal and open take a 24-byte key, an 8-byte vector, authenticated data and a text.
      A sealed text starts with its 16-byte tag. */
  datatype Crypto = Crypto(hmac: (Bytes, Bytes) -> Bytes,
                           seal: (Bytes, Bytes, Bytes, Bytes) -> Bytes,
                           open: (Bytes, Bytes, Bytes, Bytes) -> Option<Bytes>)
  {
    ghost predicate Lawful() {
      && (forall key, data :: |hmac(key, data)| == 32)
      && (forall key, iv, aad, plain :: |seal(key, iv, aad, plain)| == |plain| + 16)
      && (forall key, iv, aad, plain :: open(key, iv, aad, seal(key, iv, aad, plain)) == Some(plain))
    }
  }

  // ---- one key

  // 0x00000001 || "MessageKey" || 0x00 || session id || session index || 0x00000100
  function DerivationInput(k: KeyState): Bytes {
    [0x00, 0x00, 0x00, 0x01] + [0x4D, 0x65, 0x73, 0x73, 0x61, 0x67, 0x65, 0x4B, 0x65, 0x79] + [0x00]
    + k.sessionId + IndexBytes(k.sessionIndex) + [0x00, 0x00, 0x01, 0x00]
  }

  function Derive(c: Crypto, k: KeyState): KeyState {
    k.(key := c.hmac(k.key, DerivationInput(k)), sessionIndex := (k.sessionIndex + 1) % 0x1_0000_0000)
  }

  // The data of a derivation, by position: 55 bytes around the session id and the index.
  lemma DerivationLayout(k: KeyState)
    requires k.Sized()
    ensures var data := DerivationInput(k);
      && |data| == 55 && data[..4] == [0, 0, 0, 1] && data[14] == 0 && data[51..] == [0, 0, 1, 0]
      && (forall i :: 0 <= i < 10 ==> data[4 + i] as int == "MessageKey"[i] as int)
      && data[15..47] == k.sessionId && data[47..51] == IndexBytes(k.sessionIndex)
  {
  }

  // The new key is the HMAC of the old one over that data.
  method DeriveKey(c: Crypto, key: LimeKey)
    modifies key`key, key`sessionIndex
    ensures key.State() == Derive(c, old(key.State()))
    ensures key.key == c.hmac(old(key.key), DerivationInput(old(key.State())))
    ensures key.sessionIndex == if old(key.sessionIndex) == 0xFFFF_FFFF then 0 else old(key.sessionIndex) + 1
  {
    key.key := c.hmac(key.key, DerivationInput(key.State()));
    key.sessionIndex := (key.sessionIndex + 1) % 0x1_0000_0000;
  }

  function AuthenticatedData(senderZid: Bytes, receiverZid: Bytes, index: uint32): Bytes {
    senderZid + receiverZid + IndexBytes(index)
  }

  function EncryptMessage(c: Crypto, k: KeyState, selfZid: Bytes, plain: Bytes): Bytes
    requires |k.key| == 32
  {
    c.seal(k.key[..24], k.key[24..], AuthenticatedData(selfZid, k.peerZid, k.sessionIndex), plain)
  }

  function DecryptMessage(c: Crypto, k: KeyState, selfZid: Bytes, encrypted: Bytes): Option<Bytes>
    requires |k.key| == 32
  {
    c.open(k.key[..24], k.key[24..], AuthenticatedData(k.peerZid, selfZid, k.sessionIndex), encrypted)
  }

  // The derivation data differs at every step of a chain, and between sessions.
  lemma DerivationInputsDiffer(k1: KeyState, k2: KeyState)
    requires k1.Sized() && k2.Sized()
    ensures |DerivationInput(k1)| == 55
    ensures DerivationInput(k1) == DerivationInput(k2) <==> k1.sessionId == k2.sessionId && k1.sessionIndex == k2.sessionIndex
  {
    var d1, d2 := DerivationInput(k1), DerivationInput(k2);
    assert d1[15..47] == k1.sessionId && d2[15..47] == k2.sessionId;
    assert d1[47..51] == IndexBytes(k1.sessionIndex) && d2[47..51] == IndexBytes(k2.sessionIndex);
    IndexBytesDecode(k1.sessionIndex);
    IndexBytesDecode(k2.sessionIndex);
  }

  // Unless the HMAC collides on these two inputs, two derivations give the same key exactly when they start from the same key,
  // session and index.
  lemma DerivedKeysDiffer(c: Crypto, k1: KeyState, k2: KeyState)
    requires k1.Sized() && k2.Sized()
    requires c.hmac(k1.key, DerivationInput(k1)) == c.hmac(k2.key, DerivationInput(k2)) ==>
               k1.key == k2.key && DerivationInput(k1) == DerivationInput(k2)
    ensures Derive(c, k1).key == Derive(c, k2).key <==>
              k1.key == k2.key && k1.sessionId == k2.sessionId && k1.sessionIndex == k2.sessionIndex
    ensures Derive(c, k1).sessionId == k1.sessionId && Derive(c, k1).peerZid == k1.peerZid
  {
    hide DerivationInput;
    DerivationInputsDiffer(k1, k2);
  }

  // The authenticated data binds sender, receiver and index, so a part moved to other ends or indices has other data.
  lemma AuthenticatedDataBinds(s1: Bytes, r1: Bytes, i1: uint32, s2: Bytes, r2: Bytes, i2: uint32)
    requires |s1| == |r1| == |s2| == |r2| == 12
    ensures |AuthenticatedData(s1, r1, i1)| == 28
    ensures AuthenticatedData(s1, r1, i1)[..12] == s1 && AuthenticatedData(s1, r1, i1)[12..24] == r1
    ensures AuthenticatedData(s1, r1, i1)[24..] == IndexBytes(i1)
    ensures AuthenticatedData(s1, r1, i1) == AuthenticatedData(s2, r2, i2) <==> s1 == s2 && r1 == r2 && i1 == i2
  {
    var a1, a2 := AuthenticatedData(s1, r1, i1), AuthenticatedData(s2, r2, i2);
    assert a1[..12] == s1 && a2[..12] == s2 && a1[12..24] == r1 && a2[12..24] == r2;
    assert a1[24..] == IndexBytes(i1) && a2[24..] == IndexBytes(i2);
    IndexBytesDecode(i1);
    IndexBytesDecode(i2);
  }

  /** Two ends of one direction: the same key material, each end naming the other. */
  predicate Matching(snd: KeyState, sndZid: Bytes, rcv: KeyState, rcvZid: Bytes) {
    && snd.Sized() && rcv.Sized() && snd.peerZid == rcvZid && rcv.peerZid == sndZid
    && snd.(peerZid := sndZid) == rcv
  }

  // Both ends build the same authenticated data, so the receiver recovers the plaintext.
  lemma DecryptUndoesEncrypt(c: Crypto, snd: KeyState, sndZid: Bytes, rcv: KeyState, rcvZid: Bytes, plain: Bytes)
    requires c.Lawful() && Matching(snd, sndZid, rcv, rcvZid)
    ensures DecryptMessage(c, rcv, rcvZid, EncryptMessage(c, snd, sndZid, plain)) == Some(plain)
  {
    var aad := AuthenticatedData(sndZid, rcvZid, snd.sessionIndex);
    assert EncryptMessage(c, snd, sndZid, plain) == c.seal(snd.key[..24], snd.key[24..], aad, plain);
    assert rcv.key == snd.key && rcv.sessionIndex == snd.sessionIndex;
  }

  // Unless the receiver's end opens what was not sealed with its own key and data, a message is recovered exactly by the end
  // that holds the same key and index and that the two ZIDs name.
  lemma DecryptsExactly(c: Crypto, snd: KeyState, sndZid: Bytes, rcv: KeyState, rcvZid: Bytes, plain: Bytes)
    requires c.Lawful() && snd.Sized() && rcv.Sized() && |sndZid| == |rcvZid| == 12
    requires var sealedFor := AuthenticatedData(sndZid, snd.peerZid, snd.sessionIndex);
             var openedFor := AuthenticatedData(rcv.peerZid, rcvZid, rcv.sessionIndex);
             var text := c.seal(snd.key[..24], snd.key[24..], sealedFor, plain);
             c.open(rcv.key[..24], rcv.key[24..], openedFor, text).Some? ==> snd.key == rcv.key && sealedFor == openedFor
    ensures DecryptMessage(c, rcv, rcvZid, EncryptMessage(c, snd, sndZid, plain)) == Some(plain) <==>
              snd.key == rcv.key && sndZid == rcv.peerZid && rcvZid == snd.peerZid && snd.sessionIndex == rcv.sessionIndex
  {
    hide AuthenticatedData;
    AuthenticatedDataBinds(sndZid, snd.peerZid, snd.sessionIndex, rcv.peerZid, rcvZid, rcv.sessionIndex);
  }

  // ---- the key chain

  function DeriveTimes(c: Crypto, k: KeyState, n: nat): (r: KeyState)
    ensures r.sessionId == k.sessionId && r.peerZid == k.peerZid
  {
    if n == 0 then k else Derive(c, DeriveTimes(c, k, n - 1))
  }

  lemma {:induction false} DeriveTimesIndex(c: Crypto, k: KeyState, n: nat)
    requires k.sessionIndex + n < 0x1_0000_0000
    ensures DeriveTimes(c, k, n).sessionIndex == k.sessionIndex + n
  {
    hide DerivationInput;
    if n > 0 { DeriveTimesIndex(c, k, n - 1); }
  }

  lemma {:induction false} DeriveTimesSized(c: Crypto, k: KeyState, n: nat)
    requires c.Lawful() && k.Sized()
    ensures DeriveTimes(c, k, n).Sized()
  {
    if n > 0 { DeriveTimesSized(c, k, n - 1); }
  }

  lemma {:induction false} DeriveTimesAdd(c: Crypto, k: KeyState, m: nat, n: nat)
    ensures DeriveTimes(c, DeriveTimes(c, k, m), n) == DeriveTimes(c, k, m + n)
  {
    if n > 0 { DeriveTimesAdd(c, k, m, n - 1); }
  }

  // No two messages of a session are sealed with the same derived key, unless the HMAC collides on the chain.
  lemma ChainKeysDiffer(c: Crypto, k: KeyState, m: nat, n: nat)
    requires c.Lawful() && k.Sized() && k.sessionIndex + m < 0x1_0000_0000 && k.sessionIndex + n < 0x1_0000_0000
    requires var a, b := DeriveTimes(c, k, m), DeriveTimes(c, k, n);
             c.hmac(a.key, DerivationInput(a)) == c.hmac(b.key, DerivationInput(b)) ==>
               a.key == b.key && DerivationInput(a) == DerivationInput(b)
    ensures DeriveTimes(c, k, m + 1).key == DeriveTimes(c, k, n + 1).key <==> m == n
  {
    hide DerivationInput, Derive;
    DeriveTimesIndex(c, k, m);
    DeriveTimesIndex(c, k, n);
    DeriveTimesSized(c, k, m);
    DeriveTimesSized(c, k, n);
    DerivedKeysDiffer(c, DeriveTimes(c, k, m), DeriveTimes(c, k, n));
  }

  // Derivation does not look at the peer's ZID, so matching ends stay matching.
  lemma {:induction false} DeriveTimesMatching(c: Crypto, snd: KeyState, sndZid: Bytes, rcv: KeyState, rcvZid: Bytes, n: nat)
    requires c.Lawful() && Matching(snd, sndZid, rcv, rcvZid)
    ensures Matching(DeriveTimes(c, snd, n), sndZid, DeriveTimes(c, rcv, n), rcvZid)
  {
    DeriveTimesSized(c, snd, n);
    DeriveTimesSized(c, rcv, n);
    if n > 0 {
      DeriveTimesMatching(c, snd, sndZid, rcv, rcvZid, n - 1);
      assert DerivationInput(DeriveTimes(c, snd, n - 1)) == DerivationInput(DeriveTimes(c, rcv, n - 1));
    }
  }

  // ---- multipart messages

  datatype Part = Part(pzid: Bytes, index: Bytes, text: Bytes)

  /** A parsed document: the ZID that is its first child, if it is one, and its msg elements. */
  datatype Doc = Doc(senderZid: Option<Bytes>, parts: seq<Part>) {
    // Long enough for the fixed-length reads of the source; index characters are nibbles.
    predicate Readable() {
      && (senderZid.Some? ==> |senderZid.value| == 24)
      && (forall p <- parts :: |p.index| >= 8 && IsNibbleText(p.index) && |p.text| >= 16)
    }
  }

  function MakePart(c: Crypto, selfZid: Bytes, k: KeyState, plain: Bytes): Part
    requires k.Sized()
  {
    Part(Print(k.peerZid), IndexHex(k.sessionIndex), EncryptMessage(c, k, selfZid, plain))
  }

  function MakeParts(c: Crypto, selfZid: Bytes, keys: seq<KeyState>, plain: Bytes): (parts: seq<Part>)
    requires forall k <- keys :: k.Sized()
    ensures |parts| == |keys|
  {
    seq(|keys|, i requires 0 <= i < |keys| => MakePart(c, selfZid, keys[i], plain))
  }

  function StoreDerived(c: Crypto, peers: seq<Peer>, keys: seq<KeyState>): (r: seq<Peer>)
    ensures |r| == |peers|
  {
    if keys == [] then peers
    else Store(StoreDerived(c, peers, keys[..|keys| - 1]), Derive(c, keys[|keys| - 1]), Sender, 0)
  }

  method EncryptFor(c: Crypto, cache: Cache, key: LimeKey, selfZid: Bytes, message: Bytes) returns (part: Part)
    requires key.State().Sized()
    modifies cache, key
    ensures cache.selfZid == old(cache.selfZid)
    ensures cache.peers == Store(old(cache.peers), Derive(c, old(key.State())), Sender, 0)
    ensures part == MakePart(c, selfZid, old(key.State()), message)
  {
    part := MakePart(c, selfZid, key.State(), message);
    DeriveKey(c, key);
    var stored := SetCachedKey(cache, key.State(), Sender);
  }

  lemma StoreDerivedStep(c: Crypto, peers: seq<Peer>, keys: seq<KeyState>, i: nat)
    requires i < |keys|
    ensures StoreDerived(c, peers, keys[..i + 1]) == Store(StoreDerived(c, peers, keys[..i]), Derive(c, keys[i]), Sender, 0)
  {
    assert keys[..i + 1][..i] == keys[..i];
  }

  // The loop over the keys.
  method EncryptForEach(c: Crypto, cache: Cache, keys: seq<LimeKey>, selfZid: Bytes, message: Bytes, ghost states: seq<KeyState>)
    returns (parts: seq<Part>)
    requires |keys| == |states| && forall k <- states :: k.Sized()
    requires forall j :: 0 <= j < |keys| ==> keys[j].State() == states[j]
    requires forall i, j :: 0 <= i < j < |keys| ==> keys[i] != keys[j]
    modifies cache, keys
    ensures cache.selfZid == old(cache.selfZid)
    ensures cache.peers == StoreDerived(c, old(cache.peers), states)
    ensures parts == MakeParts(c, selfZid, states, message)
  {
    hide Store, Derive, MakePart;
    parts := [];
    var i := 0;
    while i < |keys|
      invariant 0 <= i <= |keys| && |parts| == i
      invariant cache.selfZid == old(cache.selfZid)
      invariant forall j :: 0 <= j < i ==> parts[j] == MakePart(c, selfZid, states[j], message)
      invariant cache.peers == StoreDerived(c, old(cache.peers), states[..i])
      invariant forall j :: i <= j < |keys| ==> keys[j].State() == states[j]
    {
      StoreDerivedStep(c, old(cache.peers), states, i);
      assert states[i] in states;
      var part := EncryptFor(c, cache, keys[i], selfZid, message);
      parts := parts + [part];
      i := i + 1;
    }
    assert states[..i] == states;
  }

  method CreateMultipartMessage(c: Crypto, cache: Cache?, message: Bytes, peerUri: Bytes)
    returns (code: int, output: Option<Doc>)
    requires cache != null ==> AllReadable(cache.peers) && |cache.peers| < 0x1_0000
    requires cache != null && cache.selfZid.Some? ==> |cache.selfZid.value| >= 24
    modifies if cache == null then {} else {cache}
    ensures cache == null ==> code == LIME_UNABLE_TO_ENCRYPT_MESSAGE && output == None
    ensures cache != null ==> cache.selfZid == old(cache.selfZid)
    ensures cache != null ==>
              var keys := SndKeys(old(cache.peers), peerUri);
              if cache.selfZid.None? then
                code == LIME_UNABLE_TO_ENCRYPT_MESSAGE && output == None && cache.peers == old(cache.peers)
              else if keys == [] then
                code == LIME_NO_VALID_KEY_FOUND_FOR_PEER && output == None && cache.peers == old(cache.peers)
              else
                var selfHex := cache.selfZid.value[..24];
                && code == LIME_OK
                && output == Some(Doc(Some(selfHex), MakeParts(c, Parse(selfHex), keys, message)))
                && cache.peers == StoreDerived(c, old(cache.peers), keys)
  {
    output := None;
    if cache == null || cache.selfZid.None? {
      return LIME_UNABLE_TO_ENCRYPT_MESSAGE, None;
    }
    var selfZidHex := cache.selfZid.value[..24];
    var selfZid := Parse(selfZidHex);
    ghost var before := cache.peers;
    ghost var states := SndKeys(before, peerUri);
    var status, keys := GetCachedSndKeysByURI(cache, peerUri);
    if |keys| == 0 {
      return LIME_NO_VALID_KEY_FOUND_FOR_PEER, None;
    }
    var parts := EncryptForEach(c, cache, keys, selfZid, message, states);
    code, output := LIME_OK, Some(Doc(Some(selfZidHex), parts));
  }

  datatype Received = Delivered(plain: Bytes) | Rejected(code: int)

  /** The msg elements addressed to a device. The loop of the source keeps the last one. */
  function PartsFor(parts: seq<Part>, zidHex: Bytes): (r: seq<Part>)
    ensures |r| <= |parts|
    ensures forall p <- r :: p in parts && p.pzid == zidHex
  {
    if parts == [] then []
    else
      var last := parts[|parts| - 1];
      PartsFor(parts[..|parts| - 1], zidHex) + if last.pzid == zidHex then [last] else []
  }

  /** The receiving window: behind is refused, and so is more than MAX_DERIVATION_NUMBER ahead. */
  predicate InWindow(used: uint32, expected: uint32) { expected <= used && used - expected <= MAX_DERIVATION_NUMBER }

  // The sender is known and this part is for this device.
  function ReceivePart(c: Crypto, selfZidHex: Bytes, peers: seq<Peer>, k: KeyState, part: Part): (r: (Received, seq<Peer>))
    requires c.Lawful() && k.Sized() && |part.index| >= 8 && IsNibbleText(part.index)
    ensures r.0.Rejected? ==> r.1 == peers
  {
    var used := IndexFromNibbles(part.index);
    if !InWindow(used, k.sessionIndex) then (Rejected(LIME_UNABLE_TO_DECRYPT_MESSAGE), peers)
    else
      DeriveTimesSized(c, k, used - k.sessionIndex);
      var current := DeriveTimes(c, k, used - k.sessionIndex);
      match DecryptMessage(c, current, Parse(selfZidHex), part.text)
      case None => (Rejected(LIME_UNABLE_TO_DECRYPT_MESSAGE), peers)
      case Some(plain) => (Delivered(plain), Store(peers, Derive(c, current), Receiver, 0))
  }

  function Receive(c: Crypto, selfZidHex: Bytes, peers: seq<Peer>, doc: Doc): (r: (Received, seq<Peer>))
    requires |selfZidHex| == 24 && AllReadable(peers) && doc.Readable() && c.Lawful()
    ensures r.0.Rejected? ==> r.1 == peers
  {
    if doc.senderZid.None? then (Rejected(LIME_UNABLE_TO_DECRYPT_MESSAGE), peers)
    else
      match RcvKey(peers, Parse(doc.senderZid.value))
      case None => (Rejected(LIME_NO_VALID_KEY_FOUND_FOR_PEER), peers)
      case Some(k) =>
        var mine := PartsFor(doc.parts, selfZidHex);
        if mine == [] then (Rejected(LIME_UNABLE_TO_DECRYPT_MESSAGE), peers)
        else
          assert mine[|mine| - 1] in mine;
          ReceivePart(c, selfZidHex, peers, k, mine[|mine| - 1])
  }

  // What a part does, by the primitives: outside the window, or when it does not open under the key reached, it is refused and
  // the cache is unchanged.
  lemma PartExactly(c: Crypto, selfZidHex: Bytes, peers: seq<Peer>, k: KeyState, part: Part)
    requires c.Lawful() && k.Sized() && |part.index| >= 8 && IsNibbleText(part.index)
    ensures var used := IndexFromNibbles(part.index);
            var result := ReceivePart(c, selfZidHex, peers, k, part);
            if used < k.sessionIndex || used > k.sessionIndex + 100 then
              result == (Rejected(LIME_UNABLE_TO_DECRYPT_MESSAGE), peers)
            else
              var reached := DeriveTimes(c, k, used - k.sessionIndex);
              && |reached.key| == 32
              && match c.open(reached.key[..24], reached.key[24..], k.peerZid + Parse(selfZidHex) + IndexBytes(used), part.text)
                 case None => result == (Rejected(LIME_UNABLE_TO_DECRYPT_MESSAGE), peers)
                 case Some(plain) => result == (Delivered(plain), Store(peers, Derive(c, reached), Receiver, 0))
  {
    hide IndexFromNibbles, Store, Derive, IndexBytes, Parse;
    var used := IndexFromNibbles(part.index);
    if k.sessionIndex <= used {
      DeriveTimesSized(c, k, used - k.sessionIndex);
      DeriveTimesIndex(c, k, used - k.sessionIndex);
    }
  }

  /** The first peer with the sender's ZID has all receiving elements and the flag 1. */
  predicate Knows(peers: seq<Peer>, zidHex: Bytes)
    requires AllReadable(peers)
  {
    exists i :: 0 <= i < |peers| && peers[i].zid == zidHex && (forall j :: 0 <= j < i ==> peers[j].zid != zidHex)
             && peers[i].rcv.key.Some? && peers[i].rcv.sessionId.Some? && peers[i].rcv.index.Some?
             && peers[i].pvs.Some? && |peers[i].pvs.value| >= 2 && Parse(peers[i].pvs.value[..2]) == [1]
  }

  // Which document is refused with which code, before any decryption.
  lemma Refusals(c: Crypto, selfZidHex: Bytes, peers: seq<Peer>, doc: Doc)
    requires |selfZidHex| == 24 && AllReadable(peers) && doc.Readable() && c.Lawful()
    ensures doc.senderZid.None? ==> Receive(c, selfZidHex, peers, doc) == (Rejected(LIME_UNABLE_TO_DECRYPT_MESSAGE), peers)
    ensures doc.senderZid.Some? && !Knows(peers, Print(Parse(doc.senderZid.value))) ==>
              Receive(c, selfZidHex, peers, doc) == (Rejected(LIME_NO_VALID_KEY_FOUND_FOR_PEER), peers)
    ensures doc.senderZid.Some? && Knows(peers, Print(Parse(doc.senderZid.value))) ==>
              (Receive(c, selfZidHex, peers, doc).0.Rejected? ==>
                 Receive(c, selfZidHex, peers, doc) == (Rejected(LIME_UNABLE_TO_DECRYPT_MESSAGE), peers))
    ensures (forall p <- doc.parts :: p.pzid != selfZidHex) ==> Receive(c, selfZidHex, peers, doc).0.Rejected?
  {
    hide Print, ReadKey, DecryptMessage, InWindow, Store, Derive;
    if doc.senderZid.Some? {
      var zidHex := Print(Parse(doc.senderZid.value));
      var i := FirstPeer(peers, zidHex);
      if i < |peers| { assert peers[i] in peers; }
    }
  }

  lemma SameLastPart(c: Crypto, selfZidHex: Bytes, peers: seq<Peer>, doc: Doc, other: Doc)
    requires |selfZidHex| == 24 && AllReadable(peers) && c.Lawful() && doc.Readable() && other.Readable()
    requires doc.senderZid == other.senderZid
    requires var mine, theirs := PartsFor(doc.parts, selfZidHex), PartsFor(other.parts, selfZidHex);
             (mine == [] && theirs == []) || (mine != [] && theirs != [] && mine[|mine| - 1] == theirs[|theirs| - 1])
    ensures Receive(c, selfZidHex, peers, doc) == Receive(c, selfZidHex, peers, other)
  {
    hide ReceivePart, RcvKey, Parse, PartsFor, IsNibbleText;
  }

  // The last part addressed to the device decides; the others are not looked at.
  lemma LastPartDecides(c: Crypto, selfZidHex: Bytes, peers: seq<Peer>, sender: Option<Bytes>, parts: seq<Part>, last: Part)
    requires |selfZidHex| == 24 && AllReadable(peers) && c.Lawful()
    requires Doc(sender, parts).Readable() && Doc(sender, [last]).Readable()
    ensures Doc(sender, parts + [last]).Readable()
    ensures Receive(c, selfZidHex, peers, Doc(sender, parts + [last]))
         == Receive(c, selfZidHex, peers, Doc(sender, if last.pzid == selfZidHex then [last] else parts))
  {
    hide Receive, IsNibbleText, AllReadable, PartsFor;
    var all, decisive := Doc(sender, parts + [last]), Doc(sender, if last.pzid == selfZidHex then [last] else parts);
    ReadableWithLast(sender, parts, last);
    LastPartFor(parts, last, selfZidHex);
    SameLastPart(c, selfZidHex, peers, all, decisive);
  }

  lemma ReadableWithLast(sender: Option<Bytes>, parts: seq<Part>, last: Part)
    requires Doc(sender, parts).Readable() && Doc(sender, [last]).Readable()
    ensures Doc(sender, parts + [last]).Readable()
  {
    hide IsNibbleText;
    assert last in [last];
    assert forall p <- parts + [last] :: p in parts || p == last;
  }

  lemma LastPartFor(parts: seq<Part>, last: Part, zidHex: Bytes)
    ensures PartsFor(parts + [last], zidHex) == PartsFor(parts, zidHex) + if last.pzid == zidHex then [last] else []
    ensures PartsFor([last], zidHex) == if last.pzid == zidHex then [last] else []
  {
    assert (parts + [last])[..|parts|] == parts && [last][..0] == [];
  }

  lemma PartsForNext(parts: seq<Part>, zidHex: Bytes, n: nat)
    requires n < |parts|
    ensures PartsFor(parts[..n + 1], zidHex) == PartsFor(parts[..n], zidHex) + if parts[n].pzid == zidHex then [parts[n]] else []
  {
    assert parts[..n + 1][..n] == parts[..n];
  }

  method FindPart(parts: seq<Part>, selfZidHex: Bytes) returns (part: Option<Part>)
    ensures var mine := PartsFor(parts, selfZidHex);
            part == if mine == [] then None else Some(mine[|mine| - 1])
    ensures part.None? ==> forall p <- parts :: p.pzid != selfZidHex
    ensures part.Some? ==> exists n :: 0 <= n < |parts| && parts[n] == part.value && part.value.pzid == selfZidHex
                             && forall i :: n < i < |parts| ==> parts[i].pzid != selfZidHex
  {
    hide PartsFor;
    ghost var at := 0;
    part := None;
    var n := 0;
    while n < |parts|
      invariant 0 <= n <= |parts|
      invariant var mine := PartsFor(parts[..n], selfZidHex);
                part == if mine == [] then None else Some(mine[|mine| - 1])
      invariant part.None? ==> forall i :: 0 <= i < n ==> parts[i].pzid != selfZidHex
      invariant part.Some? ==> 0 <= at < n && parts[at] == part.value && part.value.pzid == selfZidHex
                                && forall i :: at < i < n ==> parts[i].pzid != selfZidHex
    {
      PartsForNext(parts, selfZidHex, n);
      if parts[n].pzid == selfZidHex { part, at := Some(parts[n]), n; }
      n := n + 1;
    }
    assert parts[..n] == parts;
  }

  method CatchUp(c: Crypto, key: LimeKey, usedSessionIndex: uint32)
    requires key.sessionIndex <= usedSessionIndex
    modifies key
    ensures key.State() == DeriveTimes(c, old(key.State()), usedSessionIndex - old(key.sessionIndex))
  {
    hide DerivationInput;
    ghost var k := key.State();
    while usedSessionIndex > key.sessionIndex
      invariant k.sessionIndex <= key.sessionIndex <= usedSessionIndex
      invariant key.State() == DeriveTimes(c, k, key.sessionIndex - k.sessionIndex)
    {
      DeriveKey(c, key);
    }
  }

  // From the window check to the update of the cache.
  method DecryptPart(c: Crypto, cache: Cache, selfZidHex: Bytes, key: LimeKey, part: Part)
    returns (code: int, output: Option<Bytes>)
    requires c.Lawful() && key.State().Sized() && |part.index| >= 8 && IsNibbleText(part.index)
    modifies cache, key
    ensures cache.selfZid == old(cache.selfZid)
    ensures var (received, peers) := ReceivePart(c, selfZidHex, old(cache.peers), old(key.State()), part);
            && cache.peers == peers
            && (received.Delivered? ==> code == LIME_OK && output == Some(received.plain))
            && (received.Rejected? ==> code == received.code && output == None)
  {
    hide Store, DecryptMessage;
    var usedSessionIndex := IndexFromNibbles(part.index);
    if usedSessionIndex < key.sessionIndex { return LIME_UNABLE_TO_DECRYPT_MESSAGE, None; }
    if usedSessionIndex - key.sessionIndex > MAX_DERIVATION_NUMBER { return LIME_UNABLE_TO_DECRYPT_MESSAGE, None; }
    DeriveTimesSized(c, key.State(), usedSessionIndex - key.sessionIndex);
    CatchUp(c, key, usedSessionIndex);
    output := DecryptMessage(c, key.State(), Parse(selfZidHex), part.text);
    if output.None? { return LIME_UNABLE_TO_DECRYPT_MESSAGE, None; }
    DeriveKey(c, key);
    var stored := SetCachedKey(cache, key.State(), Receiver);
    code := LIME_OK;
  }

  // message is None when the body is not the expected XML document.
  method DecryptMultipartMessage(c: Crypto, cache: Cache?, message: Option<Doc>) returns (code: int, output: Option<Bytes>)
    requires c.Lawful()
    requires cache != null ==> AllReadable(cache.peers) && (cache.selfZid.Some? ==> |cache.selfZid.value| >= 24)
    requires message.Some? ==> message.value.Readable()
    modifies if cache == null then {} else {cache}
    ensures cache == null ==> code == LIME_INVALID_CACHE && output == None
    ensures cache != null ==> cache.selfZid == old(cache.selfZid)
    ensures cache != null ==>
              if cache.selfZid.None? then
                code == LIME_UNABLE_TO_DECRYPT_MESSAGE && output == None && cache.peers == old(cache.peers)
              else if message.None? then
                code == LIME_INVALID_ENCRYPTED_MESSAGE && output == None && cache.peers == old(cache.peers)
              else
                var (received, peers) := Receive(c, cache.selfZid.value[..24], old(cache.peers), message.value);
                && cache.peers == peers
                && (received.Delivered? ==> code == LIME_OK && output == Some(received.plain))
                && (received.Rejected? ==> code == received.code && output == None)
  {
    hide ReceivePart, RcvKey, Parse;
    output := None;
    if cache == null { return LIME_INVALID_CACHE, None; }
    if cache.selfZid.None? { return LIME_UNABLE_TO_DECRYPT_MESSAGE, None; }
    var selfZidHex := cache.selfZid.value[..24];
    if message.None? { return LIME_INVALID_ENCRYPTED_MESSAGE, None; }
    var doc := message.value;
    if doc.senderZid.None? { return LIME_UNABLE_TO_DECRYPT_MESSAGE, None; }
    var key := new LimeKey(KeyState([], [], 0, Parse(doc.senderZid.value)));
    var found := GetCachedRcvKeyByZid(cache, key);
    if found != LIME_OK { return found, None; }
    ghost var k := key.State();

    var part := FindPart(doc.parts, selfZidHex);
    if part.None? { return LIME_UNABLE_TO_DECRYPT_MESSAGE, None; }
    code, output := DecryptPart(c, cache, selfZidHex, key, part.value);
  }
}
